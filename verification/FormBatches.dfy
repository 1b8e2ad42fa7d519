/** Streaming the responses of a form in keyset batches while the table changes under the reader
    (backend/app/repositories/form_repo.py, iter_responses_batched).

    A table is the ids of the form's responses in ORDER BY id order. `tables(k)` is the table seen by
    the k-th fetch: any two of them may differ in any way, so inserts and deletes between batches are
    unrestricted. */
module FormBatches {
  import opened Basics

  const ID_LIMIT: nat := 0x1_0000_0000_0000_0000_0000_0000_0000_0000

  // A UUID, compared as the 128-bit number it is.
  type Id = i: nat | i < ID_LIMIT

  predicate Ascending(ids: seq<Id>) {
    forall i, j :: 0 <= i < j < |ids| ==> ids[i] < ids[j]
  }

  type Table = t: seq<Id> | Ascending(t) witness []

  predicate IsAfter(last: Option<Id>, id: Id) {
    last == None || last.value < id
  }

  // WHERE id > last ORDER BY id
  function After(t: Table, last: Option<Id>): (r: Table)
    ensures forall id :: id in r <==> id in t && IsAfter(last, id)
  {
    if t == [] || IsAfter(last, t[0]) then
      assert forall id <- t :: IsAfter(last, id);
      t
    else
      assert t == [t[0]] + t[1..];
      After(t[1..], last)
  }

  // ... LIMIT n
  function Fetch(t: Table, last: Option<Id>, limit: nat): Table {
    var rows := After(t, last);
    if |rows| <= limit then rows else rows[..limit]
  }

  ghost predicate InAll(tables: nat -> Table, fetches: nat, id: Id) {
    forall k: nat :: k < fetches ==> id in tables(k)
  }

  ghost predicate InSome(tables: nat -> Table, fetches: nat, id: Id) {
    exists k: nat :: k < fetches && id in tables(k)
  }

  // After k fetches, with everything up to `last` read.
  ghost predicate Progress(tables: nat -> Table, k: nat, last: Option<Id>, yielded: seq<Id>) {
    && Ascending(yielded)
    && (forall id <- yielded :: !IsAfter(last, id) && InSome(tables, k, id))
    && (forall id: Id :: InAll(tables, k, id) && !IsAfter(last, id) ==> id in yielded)
  }

  // A batch holds the ids after `last` up to its own last one, and no others.
  lemma FetchIsInterval(t: Table, last: Option<Id>, limit: nat, id: Id)
    requires Fetch(t, last, limit) != []
    ensures var rows := Fetch(t, last, limit);
            |rows| <= limit && (id in rows <==> id in t && IsAfter(last, id) && id <= rows[|rows| - 1])
  {
  }

  lemma JoinAscending(a: seq<Id>, b: seq<Id>)
    requires Ascending(a) && Ascending(b) && b != [] && forall id <- a :: id < b[0]
    ensures Ascending(a + b)
  {
    var joined := a + b;
    forall i, j | 0 <= i < j < |joined|
      ensures joined[i] < joined[j]
    {
      if i < |a| <= j {
        assert joined[i] in a && b[0] <= b[j - |a|];
      }
    }
  }

  lemma SomeGrows(tables: nat -> Table, k: nat, id: Id)
    requires InSome(tables, k, id) || id in tables(k)
    ensures InSome(tables, k + 1, id)
  {
  }

  lemma AllShrinks(tables: nat -> Table, k: nat, id: Id)
    requires InAll(tables, k + 1, id)
    ensures InAll(tables, k, id) && id in tables(k)
  {
  }

  lemma FetchKeepsProgress(tables: nat -> Table, k: nat, last: Option<Id>, yielded: seq<Id>, limit: nat)
    requires Progress(tables, k, last, yielded)
    requires var rows := Fetch(tables(k), last, limit); rows != []
    ensures var rows := Fetch(tables(k), last, limit);
            Progress(tables, k + 1, Some(rows[|rows| - 1]), yielded + rows)
  {
    var t := tables(k);
    var rows := Fetch(t, last, limit);
    var next := rows[|rows| - 1];
    assert rows[0] in rows && next in rows;
    FetchIsInterval(t, last, limit, rows[0]);
    JoinAscending(yielded, rows);
    forall id <- yielded + rows
      ensures id <= next && InSome(tables, k + 1, id)
    {
      FetchIsInterval(t, last, limit, id);
      SomeGrows(tables, k, id);
    }
    forall id: Id | InAll(tables, k + 1, id) && id <= next
      ensures id in yielded + rows
    {
      AllShrinks(tables, k, id);
      FetchIsInterval(t, last, limit, id);
    }
  }

  // A reading is complete when it holds every id that was there at all fetches.
  ghost predicate Complete(tables: nat -> Table, k: nat, yielded: seq<Id>) {
    forall id: Id :: InAll(tables, k, id) ==> id in yielded
  }

  ghost predicate Sound(tables: nat -> Table, k: nat, yielded: seq<Id>) {
    Ascending(yielded) && forall id <- yielded :: InSome(tables, k, id)
  }

  lemma FetchAdvances(t: Table, last: Option<Id>, limit: nat)
    ensures var rows := Fetch(t, last, limit); rows != [] ==> IsAfter(last, rows[|rows| - 1])
  {
  }

  // A fetch that was not full has read to the end of the table.
  lemma ShortFetchCompletes(tables: nat -> Table, k: nat, last: Option<Id>, yielded: seq<Id>)
    requires Progress(tables, k, last, yielded) && k > 0
    requires forall id <- tables(k - 1) :: !IsAfter(last, id)
    ensures Complete(tables, k, yielded)
  {
  }

  // A fetch with rows makes progress, moves on, and completes the reading if it was not full.
  lemma FetchOutcome(tables: nat -> Table, k: nat, last: Option<Id>, yielded: seq<Id>, limit: nat)
    requires Progress(tables, k, last, yielded)
    requires Fetch(tables(k), last, limit) != []
    ensures var rows := Fetch(tables(k), last, limit);
            var next := Some(rows[|rows| - 1]);
            && Progress(tables, k + 1, next, yielded + rows) && IsAfter(last, next.value)
            && (|rows| < limit ==> Complete(tables, k + 1, yielded + rows))
  {
    var rows := Fetch(tables(k), last, limit);
    FetchKeepsProgress(tables, k, last, yielded, limit);
    FetchAdvances(tables(k), last, limit);
    if |rows| < limit {
      LastIsGreatest(tables(k), last, rows);
      ShortFetchCompletes(tables, k + 1, Some(rows[|rows| - 1]), yielded + rows);
    }
  }

  /** Whatever happens to the table between batches, the ids come out in strictly increasing order
      (so none twice), every one of them was there at some fetch, and every response that is there at
      all fetches comes out. The stream ends for every batch size. */
  method IterResponsesBatched(tables: nat -> Table, batchSize: nat) returns (yielded: seq<Id>, fetches: nat)
    ensures Sound(tables, fetches, yielded)
    ensures batchSize > 0 ==> Complete(tables, fetches, yielded)
    ensures batchSize == 0 ==> yielded == []
    ensures fetches > 0
  {
    yielded, fetches := [], 0;
    var last: Option<Id> := None;
    while true
      invariant Progress(tables, fetches, last, yielded)
      invariant batchSize == 0 ==> yielded == []
      decreases if last.None? then ID_LIMIT + 1 else ID_LIMIT - last.value
    {
      var rows := Fetch(tables(fetches), last, batchSize);
      if rows == [] {
        fetches := fetches + 1;
        EmptyFetchKeepsProgress(tables, fetches - 1, last, yielded, batchSize);
        break;
      }
      FetchOutcome(tables, fetches, last, yielded, batchSize);
      yielded := yielded + rows;
      last := Some(rows[|rows| - 1]);
      fetches := fetches + 1;
      if |rows| < batchSize {
        break;
      }
    }
  }

  lemma EmptyFetchKeepsProgress(tables: nat -> Table, k: nat, last: Option<Id>, yielded: seq<Id>, limit: nat)
    requires Progress(tables, k, last, yielded) && Fetch(tables(k), last, limit) == []
    ensures Progress(tables, k + 1, last, yielded)
    ensures limit > 0 ==> Complete(tables, k + 1, yielded)
  {
  }

  lemma LastIsGreatest(t: Table, last: Option<Id>, rows: Table)
    requires rows == After(t, last) && rows != []
    ensures forall id <- t :: id <= rows[|rows| - 1]
  {
    forall id <- t
      ensures id <= rows[|rows| - 1]
    {
      assert rows[|rows| - 1] in rows;
      if IsAfter(last, id) {
        assert id in rows;
      }
    }
  }

  /** On a table that does not change the stream is the table, sorted by id. */
  method IterUnchanged(table: Table, batchSize: nat) returns (yielded: seq<Id>)
    requires batchSize > 0
    ensures yielded == table
  {
    var tables := (k: nat) => table;
    var fetches;
    yielded, fetches := IterResponsesBatched(tables, batchSize);
    assert forall id <- table :: InAll(tables, fetches, id);
    assert forall id: Id :: InAll(tables, fetches, id) ==> id in tables(0);
    forall id <- yielded
      ensures id in table
    {
      assert InSome(tables, fetches, id);
    }
    SameMembersSameList(yielded, table);
  }

  lemma EmptyTogether(a: Table, b: Table)
    requires forall id :: id in a <==> id in b
    ensures a == [] <==> b == []
  {
    assert a != [] ==> a[0] in b;
    assert b != [] ==> b[0] in a;
  }

  lemma {:induction false} SameMembersSameList(a: Table, b: Table)
    requires forall id :: id in a <==> id in b
    ensures a == b
  {
    EmptyTogether(a, b);
    if a != [] {
      assert a[0] in b;
      assert b[0] in a;
      assert a[0] == b[0];
      forall id
        ensures id in a[1..] <==> id in b[1..]
      {
        assert id in a[1..] <==> id in a && id != a[0];
        assert id in b[1..] <==> id in b && id != b[0];
      }
      SameMembersSameList(a[1..], b[1..]);
    }
  }
}

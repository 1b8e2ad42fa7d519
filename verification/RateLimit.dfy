/** The fixed-window rate limiter (backend/app/core/rate_limit.py): a Lua script that runs INCR on a
    key, sets its time to live on the first increment and refuses counts above the maximum.

    `calls` are the times at which the script ran for one key, oldest first. */
module RateLimit {
  import opened Basics

  ghost predicate Chronological(calls: seq<nat>) {
    forall i, j :: 0 <= i < j < |calls| ==> calls[i] <= calls[j]
  }

  // The call that created the counter which call i increments. The counter lives `window` seconds.
  function Opener(calls: seq<nat>, window: nat, i: nat): (o: nat)
    requires i < |calls|
    ensures o <= i
  {
    if i == 0 then 0
    else
      var previous := Opener(calls, window, i - 1);
      if calls[i] < calls[previous] + window then previous else i
  }

  // Call i is one of the first `max` on its counter.
  predicate Allowed(calls: seq<nat>, max: nat, window: nat, i: nat)
    requires i < |calls|
  {
    i - Opener(calls, window, i) < max
  }

  function CountAllowed(calls: seq<nat>, max: nat, window: nat, lo: nat, hi: nat): nat
    requires lo <= hi <= |calls|
  {
    if lo == hi then 0
    else CountAllowed(calls, max, window, lo, hi - 1) + if Allowed(calls, max, window, hi - 1) then 1 else 0
  }

  // Calls lo..hi all increment the counter opened by call o.
  ghost predicate OneLifetime(calls: seq<nat>, window: nat, o: nat, lo: nat, hi: nat)
    requires hi <= |calls|
  {
    forall i :: lo <= i < hi ==> Opener(calls, window, i) == o
  }

  lemma {:induction false} CountInLifetime(calls: seq<nat>, max: nat, window: nat, o: nat, lo: nat, hi: nat)
    requires o <= lo <= hi <= |calls| && OneLifetime(calls, window, o, lo, hi)
    ensures CountAllowed(calls, max, window, lo, hi) == Max(0, Min(hi, o + max) - lo)
  {
    if lo < hi {
      CountInLifetime(calls, max, window, o, lo, hi - 1);
    }
  }

  /** Every counter lifetime allows exactly min(calls, max) requests. */
  lemma {:induction false} LifetimeAllowsMin(calls: seq<nat>, max: nat, window: nat, o: nat, end: nat)
    requires o <= end <= |calls| && OneLifetime(calls, window, o, o, end)
    ensures CountAllowed(calls, max, window, o, end) == Min(end - o, max)
  {
    CountInLifetime(calls, max, window, o, o, end);
  }

  lemma {:induction false} OpenerOpens(calls: seq<nat>, window: nat, i: nat)
    requires Chronological(calls) && i < |calls|
    ensures var o := Opener(calls, window, i);
            Opener(calls, window, o) == o && calls[o] <= calls[i] && OneLifetime(calls, window, o, o, i + 1)
    ensures Opener(calls, window, i) < i ==> calls[i] < calls[Opener(calls, window, i)] + window
  {
    if i > 0 {
      OpenerOpens(calls, window, i - 1);
    }
  }

  // Later calls within `window` seconds of an opener share its counter.
  lemma {:induction false} LifetimeLasts(calls: seq<nat>, window: nat, o: nat, i: nat)
    requires Chronological(calls) && o <= i < |calls| && Opener(calls, window, o) == o
    requires calls[i] < calls[o] + window
    ensures Opener(calls, window, i) == o
  {
    if o < i {
      assert calls[i - 1] <= calls[i];
      LifetimeLasts(calls, window, o, i - 1);
    }
  }

  lemma {:induction false} CountSplits(calls: seq<nat>, max: nat, window: nat, lo: nat, mid: nat, hi: nat)
    requires lo <= mid <= hi <= |calls|
    ensures CountAllowed(calls, max, window, lo, hi) ==
      CountAllowed(calls, max, window, lo, mid) + CountAllowed(calls, max, window, mid, hi)
  {
    if mid < hi {
      CountSplits(calls, max, window, lo, mid, hi - 1);
    }
  }

  // The first call in lo+1..hi that opens a new counter, or hi.
  lemma {:induction false} NextOpener(calls: seq<nat>, window: nat, lo: nat, hi: nat) returns (next: nat)
    requires Chronological(calls) && lo < hi <= |calls|
    ensures lo < next <= hi && OneLifetime(calls, window, Opener(calls, window, lo), lo, next)
    ensures next < hi ==> Opener(calls, window, next) == next
  {
    if lo + 1 == hi {
      next := hi;
    } else {
      next := NextOpener(calls, window, lo, hi - 1);
      if next == hi - 1 && Opener(calls, window, next) != next {
        next := hi;
      }
    }
  }

  /** In any half-open interval of `window` seconds fewer than 2 * max requests are allowed: at most
      two counters meet the interval, and the first of them was opened before it. The calls lo..hi
      are those that fall into the interval. */
  lemma IntervalBound(calls: seq<nat>, max: nat, window: nat, from: nat, lo: nat, hi: nat)
    requires Chronological(calls) && lo <= hi <= |calls|
    requires forall i :: lo <= i < hi ==> from <= calls[i] < from + window
    ensures CountAllowed(calls, max, window, lo, hi) <= Max(0, 2 * max - 1)
  {
    if lo < hi {
      var o := Opener(calls, window, lo);
      OpenerOpens(calls, window, lo);
      if o == lo {
        forall i | lo <= i < hi
          ensures Opener(calls, window, i) == lo
        {
          LifetimeLasts(calls, window, lo, i);
        }
        CountInLifetime(calls, max, window, lo, lo, hi);
      } else {
        var next := NextOpener(calls, window, lo, hi);
        CountInLifetime(calls, max, window, o, lo, next);
        CountSplits(calls, max, window, lo, next, hi);
        forall i | next <= i < hi
          ensures Opener(calls, window, i) == next
        {
          LifetimeLasts(calls, window, next, i);
        }
        CountInLifetime(calls, max, window, next, next, hi);
      }
    }
  }

  function Repeat(t: nat, n: nat): (r: seq<nat>)
    ensures |r| == n && forall i :: 0 <= i < n ==> r[i] == t
  {
    seq(n, _ => t)
  }

  /** The bound is attained, for every max and every window of at least two seconds. */
  lemma IntervalBoundIsTight(max: nat, window: nat) returns (calls: seq<nat>, from: nat)
    requires max > 0 && window >= 2
    ensures Chronological(calls) && |calls| == 2 * max
    ensures forall i :: 1 <= i < |calls| ==> from <= calls[i] < from + window
    ensures CountAllowed(calls, max, window, 1, |calls|) == 2 * max - 1
  {
    calls := [0] + Repeat(window - 1, max - 1) + Repeat(window, max);
    forall i | 0 <= i < max
      ensures Opener(calls, window, i) == 0
    {
      LifetimeLasts(calls, window, 0, i);
    }
    assert Opener(calls, window, max) == max;
    forall i | max <= i < |calls|
      ensures Opener(calls, window, i) == max
    {
      LifetimeLasts(calls, window, max, i);
    }
    CountSplits(calls, max, window, 1, max, |calls|);
    CountInLifetime(calls, max, window, 0, 1, max);
    CountInLifetime(calls, max, window, max, max, |calls|);
    from := window - 1;
  }

  datatype Counter = Counter(count: nat, until: nat)

  // What the key holds after these calls.
  function CounterOf(calls: seq<nat>, window: nat): Option<Counter> {
    if calls == [] then None
    else
      var last := |calls| - 1;
      var o := Opener(calls, window, last);
      Some(Counter(last - o + 1, calls[o] + window))
  }

  // One more call increments the live counter or opens one.
  function Incremented(counter: Option<Counter>, now: nat, window: nat): Counter {
    if counter.Some? && now < counter.value.until then Counter(counter.value.count + 1, counter.value.until)
    else Counter(1, now + window)
  }

  lemma AppendCounter(calls: seq<nat>, max: nat, window: nat, now: nat)
    requires Chronological(calls) && (calls != [] ==> calls[|calls| - 1] <= now)
    ensures var counter := Incremented(CounterOf(calls, window), now, window);
      && Chronological(calls + [now]) && CounterOf(calls + [now], window) == Some(counter)
      && (Allowed(calls + [now], max, window, |calls|) <==> counter.count <= max)
  {
    AppendOpener(calls, now, window);
    hide Opener, Chronological;
  }

  class Limiter {
    const max: nat
    const window: nat
    var counter: Option<Counter>
    ghost var calls: seq<nat>

    ghost predicate Valid()
      reads this
    {
      Chronological(calls) && counter == CounterOf(calls, window)
    }

    constructor (max: nat, window: nat)
      ensures Valid() && calls == [] && this.max == max && this.window == window
    {
      this.max, this.window := max, window;
      counter, calls := None, [];
    }

    /** One run of the script at time `now`. */
    method CheckRateLimit(now: nat) returns (allowed: bool)
      requires Valid() && (calls != [] ==> calls[|calls| - 1] <= now)
      modifies this
      ensures Valid() && calls == old(calls) + [now]
      ensures allowed <==> Allowed(calls, max, window, |calls| - 1)
    {
      var current := 1;
      if counter.Some? && now < counter.value.until {
        current := counter.value.count + 1;
        counter := Some(Counter(current, counter.value.until));
      } else {
        counter := Some(Counter(current, now + window));
      }
      AppendCounter(calls, max, window, now);
      hide Opener, Chronological, CounterOf, Allowed;
      calls := calls + [now];
      allowed := !(current > max);
    }
  }

  // Who opens the counter of one more call.
  lemma AppendOpener(calls: seq<nat>, now: nat, window: nat)
    requires Chronological(calls) && (calls != [] ==> calls[|calls| - 1] <= now)
    ensures Chronological(calls + [now])
    ensures Opener(calls + [now], window, |calls|) ==
              if calls != [] && now < calls[Opener(calls, window, |calls| - 1)] + window
              then Opener(calls, window, |calls| - 1) else |calls|
  {
    if calls != [] {
      SameOpener(calls, now, window, |calls| - 1);
    }
  }

  // Later calls do not change who opened a counter.
  lemma {:induction false} SameOpener(calls: seq<nat>, now: nat, window: nat, i: nat)
    requires i < |calls|
    ensures Opener(calls + [now], window, i) == Opener(calls, window, i)
  {
    if i > 0 {
      SameOpener(calls, now, window, i - 1);
    }
  }
}

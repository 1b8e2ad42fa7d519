/** The longest run of consecutive days with a commit (scripts/compute_stats.py,
    longest_commit_streak). A date is its day number. */
module Streak {
  import opened Basics

  // n days from start on, all in the set.
  ghost predicate IsRun(days: set<int>, start: int, n: nat) {
    forall d :: start <= d < start + n ==> d in days
  }

  // The length of the run that ends at the last of some sorted days.
  function Tail(days: seq<int>): nat {
    if days == [] then 0
    else if |days| > 1 && days[|days| - 1] - days[|days| - 2] == 1 then 1 + Tail(days[..|days| - 1])
    else 1
  }

  predicate Ascending(days: seq<int>) {
    forall i, j :: 0 <= i < j < |days| ==> days[i] < days[j]
  }

  ghost function SetOf(days: seq<int>): set<int> {
    set d | d in days
  }

  // Tail is a run, and no run that ends at the last day is longer.
  lemma {:induction false} TailIsLongest(days: seq<int>, start: int, n: nat)
    requires Ascending(days) && days != []
    ensures var last := days[|days| - 1];
      && IsRun(SetOf(days), last - Tail(days) + 1, Tail(days))
      && (IsRun(SetOf(days), start, n) && start + n == last + 1 ==> n <= Tail(days))
  {
    var k := |days| - 1;
    var last, init := days[k], days[..k];
    assert forall d <- SetOf(days) :: d == last || d in SetOf(init);
    assert SetOf(init) <= SetOf(days) && last in SetOf(days);
    if k > 0 && last - days[k - 1] == 1 {
      TailIsLongest(init, start, if n > 0 then n - 1 else 0);
    } else {
      assert last - 1 !in SetOf(days);
    }
  }

  // A run in the days seen so far ends at the last of them or is a run without it.
  lemma RunSplits(days: seq<int>, start: int, n: nat)
    requires Ascending(days) && days != [] && n > 0 && IsRun(SetOf(days), start, n)
    ensures start + n == days[|days| - 1] + 1 || IsRun(SetOf(days[..|days| - 1]), start, n)
  {
    var k := |days| - 1;
    var last := days[k];
    assert forall d <- SetOf(days) :: d <= last && (d == last || d in SetOf(days[..k]));
    assert start + n - 1 in SetOf(days);
  }

  // best is the length of some run, and of the longest.
  ghost predicate Longest(days: set<int>, best: nat) {
    && (exists start :: IsRun(days, start, best))
    && forall start, n: nat :: IsRun(days, start, n) ==> n <= best
  }

  lemma LongestGrows(days: seq<int>, best: nat)
    requires Ascending(days) && |days| > 1
    requires Longest(SetOf(days[..|days| - 1]), best)
    ensures Longest(SetOf(days), Max(best, Tail(days)))
  {
    var k := |days| - 1;
    var seen := SetOf(days[..k]);
    assert seen <= SetOf(days);
    forall start, n: nat | IsRun(SetOf(days), start, n)
      ensures n <= Max(best, Tail(days))
    {
      if n > 0 {
        RunSplits(days, start, n);
        TailIsLongest(days, start, n);
      }
    }
    var start :| IsRun(seen, start, best);
    assert IsRun(SetOf(days), start, best);
    TailIsLongest(days, 0, 0);
  }

  /** The loop over the sorted distinct days: some run has the returned length, and none is longer. */
  method LongestCommitStreak(days: seq<int>) returns (best: nat)
    requires Ascending(days)
    ensures Longest(SetOf(days), best)
  {
    if |days| == 0 {
      assert IsRun(SetOf(days), 0, 0);
      assert forall start, n: nat :: IsRun(SetOf(days), start, n) && n > 0 ==> start in SetOf(days);
      return 0;
    }
    best := 1;
    var cur := 1;
    OneDay(days);
    for i := 1 to |days|
      invariant cur == Tail(days[..i])
      invariant best >= 1 && Longest(SetOf(days[..i]), best)
    {
      assert days[..i + 1][..i] == days[..i];
      LongestGrows(days[..i + 1], best);
      if days[i] - days[i - 1] == 1 {
        cur := cur + 1;
        best := Max(best, cur);
      } else {
        cur := 1;
      }
    }
    assert days[..|days|] == days;
  }

  lemma OneDay(days: seq<int>)
    requires Ascending(days) && days != []
    ensures Tail(days[..1]) == 1 && Longest(SetOf(days[..1]), 1)
  {
    var one := days[..1];
    assert one == [days[0]] && SetOf(one) == {days[0]};
    assert IsRun(SetOf(one), days[0], 1);
    forall start, n: nat | IsRun(SetOf(one), start, n)
      ensures n <= 1
    {
      assert n > 1 ==> start in SetOf(one) && start + 1 in SetOf(one);
    }
  }
}

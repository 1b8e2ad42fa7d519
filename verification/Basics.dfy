// Shared vocabulary: optional values, runs of a state machine, sizes of sets.
module Basics {
  datatype Option<+T> = None | Some(value: T)

  function Max(a: int, b: int): (m: int)
    ensures m >= a && m >= b && (m == a || m == b)
  {
    if a >= b then a else b
  }

  function Min(a: int, b: int): (m: int)
    ensures m <= a && m <= b && (m == a || m == b)
  {
    if a <= b then a else b
  }

  // ---- Runs ----

  // A run of commands, newest last. Its prefixes are the moments of the run.
  datatype RunOf<C> = Start | Then(before: RunOf<C>, cmd: C)

  // a is a moment of b
  ghost predicate Within<C>(a: RunOf<C>, b: RunOf<C>) {
    a == b || (b.Then? && Within(a, b.before))
  }

  lemma {:induction false} WithinTransitive<C>(a: RunOf<C>, b: RunOf<C>, c: RunOf<C>)
    requires Within(a, b) && Within(b, c)
    ensures Within(a, c)
  {
    if b != c {
      WithinTransitive(a, b, c.before);
    }
  }

  // ---- Sizes ----

  lemma {:induction false} SubsetSize<T>(a: set<T>, b: set<T>)
    requires a <= b
    ensures |a| <= |b|
  {
    if x :| x in a {
      SubsetSize(a - {x}, b - {x});
    } else {
      assert a == {};
    }
  }

  lemma SameSize<T>(a: set<T>, b: set<T>)
    requires a <= b && |a| == |b|
    ensures a == b
  {
    forall x <- b
      ensures x in a
    {
      if x !in a {
        SubsetSize(a, b - {x});
      }
    }
  }
}

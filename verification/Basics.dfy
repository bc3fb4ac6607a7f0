/** Numbers and finite sets. */
module Basics {
  function Min(a: nat, b: nat): nat {
    if a < b then a else b
  }

  function Max(a: nat, b: nat): nat {
    if a < b then b else a
  }

  lemma {:induction false} SubsetSize<T>(a: set<T>, b: set<T>)
    requires a <= b
    ensures |a| <= |b|
  {
    if x :| x in a {
      SubsetSize(a - {x}, b - {x});
    }
  }

  ghost function Interval(start: nat, n: nat): set<nat> {
    if n == 0 then {} else Interval(start, n - 1) + {start + n - 1}
  }

  lemma {:induction false} IntervalSize(start: nat, n: nat)
    ensures |Interval(start, n)| == n && forall x: nat :: x in Interval(start, n) <==> start <= x < start + n
  {
    if n > 0 {
      IntervalSize(start, n - 1);
    }
  }

  /** The numbers of an interval that are not in a set. */
  lemma Complement(rest: set<nat>, s: set<nat>, start: nat, n: nat)
    requires forall x: nat :: x in rest <==> start <= x < start + n && x !in s
    requires forall x :: x in s ==> start <= x < start + n
    ensures |rest| == n - |s|
  {
    IntervalSize(start, n);
    assert rest + s == Interval(start, n);
    assert rest !! s;
  }
}

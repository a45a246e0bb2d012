// Sums over finite sets.

module Sums {

  ghost function Sum<T>(f: T -> int, s: set<T>): int {
    if s == {} then 0
    else
      var x :| x in s;
      f(x) + Sum(f, s - {x})
  }

  // The order of summation does not matter.
  lemma {:induction false} SumTake<T>(f: T -> int, s: set<T>, x: T)
    requires x in s
    ensures Sum(f, s) == f(x) + Sum(f, s - {x})
    decreases s
  {
    var first :| first in s && Sum(f, s) == f(first) + Sum(f, s - {first});
    if first != x {
      SumTake(f, s - {first}, x);
      SumTake(f, s - {x}, first);
      assert s - {first} - {x} == s - {x} - {first};
    }
  }

  lemma {:induction false} SumDiffers<T>(f: T -> int, g: T -> int, d: T -> int, s: set<T>)
    requires forall x :: x in s ==> f(x) == g(x) + d(x)
    ensures Sum(f, s) == Sum(g, s) + Sum(d, s)
  {
    if s != {} {
      var x :| x in s;
      SumTake(f, s, x);
      SumTake(g, s, x);
      SumTake(d, s, x);
      SumDiffers(f, g, d, s - {x});
    }
  }

  lemma {:induction false} SumSame<T>(f: T -> int, g: T -> int, s: set<T>)
    requires forall x :: x in s ==> f(x) == g(x)
    ensures Sum(f, s) == Sum(g, s)
  {
    if s != {} {
      var x :| x in s;
      SumTake(f, s, x);
      SumTake(g, s, x);
      SumSame(f, g, s - {x});
    }
  }

  lemma {:induction false} SumZero<T>(f: T -> int, s: set<T>)
    requires forall x :: x in s ==> f(x) == 0
    ensures Sum(f, s) == 0
  {
    if s != {} {
      var x :| x in s;
      SumTake(f, s, x);
      SumZero(f, s - {x});
    }
  }

  lemma {:induction false} SumNonNegative<T>(f: T -> int, s: set<T>)
    requires forall x :: x in s ==> 0 <= f(x)
    ensures 0 <= Sum(f, s)
  {
    if s != {} {
      var x :| x in s;
      SumTake(f, s, x);
      SumNonNegative(f, s - {x});
    }
  }

  lemma {:induction false} LargestExists<T>(f: T -> int, s: set<T>)
    requires s != {}
    ensures exists x :: x in s && forall y :: y in s ==> f(y) <= f(x)
  {
    var x :| x in s;
    var rest := s - {x};
    if rest == {} {
      assert s == {x};
    } else {
      LargestExists(f, rest);
      var z :| z in rest && forall y :: y in rest ==> f(y) <= f(z);
      var m := if f(z) <= f(x) then x else z;
      forall y | y in s ensures f(y) <= f(m) {
        assert y == x || y in rest;
      }
      assert m in s;
    }
  }
}

/**
 The equation side of the search: for a coefficient d and a candidate y,
 decide whether d*y^2 + 1 is a perfect square x^2 (so that x^2 - d*y^2 = 1),
 and take the largest such x over the bounded range of y the program tries.

 The program computes the square root in floating point and tests the result
 for being integral. Here that test is replaced by exact integer arithmetic:
 `RootFrom(n, 0)` searches k = 0, 1, 2, ... for k*k == n and stops with 0
 as soon as k*k passes n, so it returns the natural root of n or 0.
 */
module Pell {

  /** The exclusive upper bound on y in the brute-force search (y runs over 1..9). */
  const YLimit: nat := 10

  /** x squared; a function of its own so that quantifiers have a term to trigger on. */
  function Sq(x: int): (s: int) {
    x * x
  }

  /** k is the natural square root of n. */
  predicate IsRoot(k: int, n: int) {
    k >= 0 && Sq(k) == n
  }

  /** True iff n is the square of some natural number. */
  ghost predicate IsSquare(n: int) {
    exists k :: IsRoot(k, n)
  }

  /** (x, y) is a solution in positive integers of x^2 - d*y^2 = 1. */
  predicate PellSolution(d: int, x: int, y: int) {
    x > 0 && y > 0 && x * x - d * y * y == 1
  }

  lemma SquareMonotone(a: nat, b: nat)
    requires a <= b
    ensures Sq(a) <= Sq(b)
  {
  }

  /** Squaring is injective on the naturals, and a square lying strictly
      between two consecutive squares is impossible. */
  lemma SquareBetween(k: nat, r: nat)
    requires Sq(r) <= Sq(k) < Sq(r + 1)
    ensures k == r
  {
    if k < r {
      SquareMonotone(k + 1, r);
    } else if k > r {
      SquareMonotone(r + 1, k);
    }
  }

  /** n lies strictly between two consecutive squares, so it is not a square. */
  lemma NotSquare(n: int, r: nat)
    requires Sq(r) < n < Sq(r + 1)
    ensures !IsSquare(n)
  {
    if IsSquare(n) {
      var k :| IsRoot(k, n);
      SquareBetween(k, r);
    }
  }

  /**
   The natural square root of n, searched upward from k: the k' >= k with
   Sq(k') == n, or 0 once the squares pass n.
   */
  function RootFrom(n: nat, k: nat): (root: nat)
    decreases n + 1 - k
  {
    if k > n || Sq(k) > n then 0
    else if Sq(k) == n then k
    else RootFrom(n, k + 1)
  }

  /** Started where no smaller natural can be a root, the search finds the
      root of n if there is one, and returns 0 otherwise. */
  lemma {:induction false} RootFromIsRoot(n: nat, k: nat)
    requires k == 0 || Sq(k - 1) < n
    ensures RootFrom(n, k) == 0 || IsRoot(RootFrom(n, k), n)
    ensures forall j :: IsRoot(j, n) ==> RootFrom(n, k) == j
    decreases n + 1 - k
  {
    forall j | IsRoot(j, n)
      ensures Sq(k) == n ==> k == j
      ensures Sq(k) > n ==> false
    {
      if Sq(k) == n {
        SquareBetween(j, k);
      } else if Sq(k) > n && k > 0 {
        SquareBetween(j, k - 1);
      }
    }
    if k <= n && Sq(k) < n {
      RootFromIsRoot(n, k + 1);
    }
  }

  /**
   Returns x when d*y^2 + 1 is the square of the natural number x, and 0
   otherwise. A negative d*y^2 + 1 has no real square root (the program's
   `Math.sqrt` yields NaN, which its integrality test rejects), so it gives 0.
   */
  function TestEquation(d: int, y: int): (x: nat)
  {
    var n := d * y * y + 1;
    if n < 0 then 0 else RootFrom(n, 0)
  }

  /** The test is exact: its result is 0 or the natural root of d*y^2 + 1,
      and whenever d*y^2 + 1 has a natural root, the test returns it. */
  lemma TestEquationIsExact(d: int, y: int)
    ensures TestEquation(d, y) == 0 || IsRoot(TestEquation(d, y), d * y * y + 1)
    ensures forall k :: k >= 0 && Sq(k) == d * y * y + 1 ==> TestEquation(d, y) == k
  {
    var n := d * y * y + 1;
    if n >= 0 {
      RootFromIsRoot(n, 0);
      assert TestEquation(d, y) == RootFrom(n, 0);
      forall k | k >= 0 && Sq(k) == n
        ensures TestEquation(d, y) == k
      {
        assert IsRoot(k, n);
      }
    }
  }

  /** For a positive y, the test succeeds exactly when some x solves the
      Pell equation with this y, and then it returns that x. */
  lemma TestEquationSoundAndComplete(d: int, y: int)
    requires y > 0
    ensures TestEquation(d, y) > 0 ==> PellSolution(d, TestEquation(d, y), y)
    ensures forall x {:trigger PellSolution(d, x, y)} :: PellSolution(d, x, y) ==> TestEquation(d, y) == x
  {
    TestEquationIsExact(d, y);
    forall x | PellSolution(d, x, y)
      ensures TestEquation(d, y) == x
    {
      assert IsRoot(x, d * y * y + 1);
    }
  }

  /**
   The running maximum of `TestEquation(d, y)` over y in [1, hi), folded in
   ascending y and replaced only on a strictly larger value, starting from 0.
   */
  function SolveUpTo(d: int, hi: nat): (maxX: nat)
  {
    if hi <= 1 then 0
    else
      var best := SolveUpTo(d, hi - 1);
      var x := TestEquation(d, hi - 1);
      if x > best then x else best
  }

  /** The fold is the maximum of the tests over y in [1, hi), or 0 for an empty range. */
  lemma {:induction false} SolveUpToIsMax(d: int, hi: nat)
    ensures forall y :: 1 <= y < hi ==> TestEquation(d, y) <= SolveUpTo(d, hi)
    ensures SolveUpTo(d, hi) == 0 || exists y :: 1 <= y < hi && TestEquation(d, y) == SolveUpTo(d, hi)
  {
    if hi > 1 {
      SolveUpToIsMax(d, hi - 1);
    }
  }

  /** The largest x that the search over y in [1, YLimit) finds for d, or 0. */
  function SolveEquation(d: int): (maxX: nat)
  {
    SolveUpTo(d, YLimit)
  }

  /**
   `SolveEquation(d)` is the largest x of any Pell solution (x, y) with
   y in [1, YLimit), and it is 0 exactly when there is no such solution.
   */
  lemma SolveEquationIsLargestPellX(d: int)
    ensures SolveEquation(d) > 0 ==>
              exists y :: 1 <= y < YLimit && PellSolution(d, SolveEquation(d), y)
    ensures forall x, y {:trigger PellSolution(d, x, y)} ::
              1 <= y < YLimit && PellSolution(d, x, y) ==> x <= SolveEquation(d)
    ensures SolveEquation(d) == 0 <==>
              forall x, y {:trigger PellSolution(d, x, y)} :: 1 <= y < YLimit ==> !PellSolution(d, x, y)
  {
    var s := SolveEquation(d);
    SolveUpToIsMax(d, YLimit);
    forall x, y | 1 <= y < YLimit && PellSolution(d, x, y)
      ensures x <= s
    {
      TestEquationSoundAndComplete(d, y);
    }
    if s > 0 {
      var y :| 1 <= y < YLimit && TestEquation(d, y) == s;
      TestEquationSoundAndComplete(d, y);
    }
  }

  /**
   A positive square coefficient d = k^2 has no solution: d*y^2 + 1 lies
   strictly between (k*y)^2 and (k*y + 1)^2. So skipping the squares, as the
   program does, loses nothing.
   */
  lemma SquareCoefficientHasNoSolution(d: int)
    requires d >= 1 && IsSquare(d)
    ensures forall x, y {:trigger PellSolution(d, x, y)} :: !PellSolution(d, x, y)
    ensures SolveEquation(d) == 0
  {
    var k :| IsRoot(k, d);
    forall x, y | x > 0 && y > 0
      ensures x * x - d * y * y != 1
    {
      var m := k * y;
      assert Sq(m) == d * y * y by {
        assert Sq(m) == (k * k) * (y * y);
      }
      if x * x - d * y * y == 1 {
        SquareBetween(x, m);
      }
    }
    SolveEquationIsLargestPellX(d);
  }

  /** Pins down the test's value once the floor square root r of d*y^2 + 1 is known. */
  lemma TestEquationAt(d: int, y: int, r: nat)
    requires Sq(r) <= d * y * y + 1 < Sq(r + 1)
    ensures TestEquation(d, y) == if Sq(r) == d * y * y + 1 then r else 0
  {
    var x := TestEquation(d, y);
    TestEquationIsExact(d, y);
    if Sq(r) == d * y * y + 1 {
      assert IsRoot(r, d * y * y + 1);
    } else if x != 0 {
      SquareBetween(x, r);
    }
  }

}

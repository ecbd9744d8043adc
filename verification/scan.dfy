/**
 The driver of the search: a sieve that marks the perfect squares up to the
 bound while the scan walks d = 1..maximum, skipping every d marked square and
 keeping a running arg-max of `SolveEquation(d)` that a later d replaces only
 with a strictly larger x.
 */
module Scan {
  import opened Pell

  /** The bound on d that the program hard-codes. */
  const Maximum: nat := 7

  /** The best candidate seen so far: its coefficient d and the x it achieved.
      `Best(0, 0)` is the starting value, kept while no d has produced an x. */
  datatype Best = Best(d: nat, x: nat)

  /**
   The contents of the `isSquare` array of length maximum + 1 once the scan
   has marked k*k for every k in 1..upTo with k*k <= maximum: entry i is set
   exactly when i is the square of one of those k.
   */
  function Sieve(maximum: nat, upTo: nat): (s: seq<bool>)
    ensures |s| == maximum + 1
    ensures forall i :: 0 <= i <= maximum ==>
              (s[i] <==> exists k :: 1 <= k <= upTo && Sq(k) == i)
  {
    if upTo == 0 then seq(maximum + 1, _ => false)
    else
      var s := Sieve(maximum, upTo - 1);
      if Sq(upTo) <= maximum then s[Sq(upTo) := true] else s
  }

  /** A positive natural is at most its square. */
  lemma RootIsAtMostSquare(k: nat)
    requires k >= 1
    ensures k <= Sq(k)
  {
  }

  /**
   When the scan reaches d (after marking d*d), the flag it tests, entry d,
   is set exactly when d is a perfect square: any root k of d lies in 1..d.
   */
  lemma SieveFlagsExactlySquares(maximum: nat, d: nat)
    requires 1 <= d <= maximum
    ensures Sieve(maximum, d)[d] <==> IsSquare(d)
  {
    if IsSquare(d) {
      var k :| IsRoot(k, d);
      assert k != 0;
      RootIsAtMostSquare(k);
    }
    if Sieve(maximum, d)[d] {
      var k :| 1 <= k <= d && Sq(k) == d;
      assert IsRoot(k, d);
    }
  }

  /**
   The reference fold of the scan over d = 1..n for a value function `value`
   and a skip test `skip`: a skipped d changes nothing, and a d whose value is
   strictly larger than the best so far replaces it. The program's scan is the
   instance `BestUpTo(SolveEquation, IsSquare, maximum)`.
   */
  ghost function BestUpTo(value: int -> nat, skip: int -> bool, n: nat): (best: Best)
  {
    if n == 0 then Best(0, 0)
    else
      var b := BestUpTo(value, skip, n - 1);
      if skip(n) then b
      else if value(n) > b.x then Best(n, value(n))
      else b
  }

  /**
   b is the first arg-max of `value` over the d in 1..n that are not skipped:
   no such d does better, every earlier one does strictly worse, and b.d is 0
   (with b.x = 0) exactly when no such d has a positive value.
   */
  ghost predicate IsFirstArgMax(value: int -> nat, skip: int -> bool, n: nat, b: Best) {
    && (b.d == 0 ==> b.x == 0)
    && (b.d != 0 ==> 1 <= b.d <= n && !skip(b.d) && b.x == value(b.d) && b.x > 0)
    && (forall d :: 1 <= d <= n && !skip(d) ==> value(d) <= b.x)
    && (forall d :: 1 <= d < b.d && !skip(d) ==> value(d) < b.x)
  }

  /** The fold computes the first arg-max. */
  lemma {:induction false} BestUpToIsFirstArgMax(value: int -> nat, skip: int -> bool, n: nat)
    ensures IsFirstArgMax(value, skip, n, BestUpTo(value, skip, n))
  {
    if n > 0 {
      BestUpToIsFirstArgMax(value, skip, n - 1);
    }
  }

  /** The first arg-max is unique, so the property alone fixes the printed d. */
  lemma FirstArgMaxIsUnique(value: int -> nat, skip: int -> bool, n: nat, b1: Best, b2: Best)
    requires IsFirstArgMax(value, skip, n, b1) && IsFirstArgMax(value, skip, n, b2)
    ensures b1 == b2
  {
  }

  /** 1 = 1*1, so the scan always skips d = 1. */
  lemma OneIsSquare()
    ensures IsSquare(1)
  {
    assert IsRoot(1, 1);
  }

  /**
   Skipping the squares changes nothing: every positive square d has search
   value 0, which can never beat the running best, so the fold that skips
   squares equals the fold that skips no d at all.
   */
  lemma {:induction false} SkippingSquaresChangesNothing(n: nat)
    ensures BestUpTo(SolveEquation, IsSquare, n) == BestUpTo(SolveEquation, (d: int) => false, n)
  {
    if n > 0 {
      SkippingSquaresChangesNothing(n - 1);
      if IsSquare(n) {
        SquareCoefficientHasNoSolution(n);
      }
    }
  }

  /**
   What the scan reports for a bound: the first arg-max of `SolveEquation`
   over the non-square d in 1..maximum, and, when it is not the starting
   d = 0, a non-square d in [2, maximum].
   */
  lemma ScanResultIsFirstArgMax(maximum: nat)
    ensures IsFirstArgMax(SolveEquation, IsSquare, maximum, BestUpTo(SolveEquation, IsSquare, maximum))
    ensures var best := BestUpTo(SolveEquation, IsSquare, maximum);
              best.d != 0 ==> 2 <= best.d <= maximum && !IsSquare(best.d)
  {
    BestUpToIsFirstArgMax(SolveEquation, IsSquare, maximum);
    OneIsSquare();
  }

  /**
   The loop of the program's entry point for a given bound: it allocates the
   zero-initialised `isSquare` array, marks d*d while it is in range, skips
   the d it finds marked, and updates (maxD, maxX) on a strictly larger x.
   The result is the reference fold, hence (by `ScanResultIsFirstArgMax`) the
   first arg-max of `SolveEquation` over the non-square d in 1..maximum; d = 1
   is always skipped, so a reported d is at least 2.
   */
  method Search(maximum: nat) returns (maxD: nat, maxX: nat)
    ensures maxD != 0 ==> 2 <= maxD
    ensures Best(maxD, maxX) == BestUpTo(SolveEquation, IsSquare, maximum)
  {
    maxD, maxX := 0, 0;
    var isSquare := new bool[maximum + 1](_ => false);
    for d := 1 to maximum + 1
      invariant isSquare[..] == Sieve(maximum, d - 1)
      invariant Best(maxD, maxX) == BestUpTo(SolveEquation, IsSquare, d - 1)
    {
      if d * d <= maximum {
        isSquare[d * d] := true;
      }
      assert isSquare[..] == Sieve(maximum, d);
      SieveFlagsExactlySquares(maximum, d);
      if isSquare[d] {
        continue;
      }
      var x := SolveEquation(d);
      if x > maxX {
        maxX := x;
        maxD := d;
      }
    }
    BestUpToIsFirstArgMax(SolveEquation, IsSquare, maximum);
    OneIsSquare();
  }
}

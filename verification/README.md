# Brute-force search for Pell equation solutions (Project Euler 66)

The program looks for the coefficient d, for d up to a bound `maximum`, whose
equation x^2 - d*y^2 = 1 gives the largest x. Its entry point walks
d = 1..maximum. It marks the perfect squares in a boolean array as it goes
and skips them. For each other d it calls `solveEquation(d)` and keeps a
running arg-max (maxD, maxX). A later d replaces the current best only with a
strictly larger x. At the end it prints maxD. `solveEquation(d)` tries
y = 1..9 and returns the largest x that `testEquation(d, y)` reports.
`testEquation(d, y)` returns x when d*y^2 + 1 is the perfect square x^2, and
0 otherwise. The bound is hard-coded as 7, so the program prints 5.

The model has three modules:

- `Pell` (pell.dfy) holds the equation side. `TestEquation` is an exact integer
  perfect-square test. `SolveUpTo` and `SolveEquation` are the fold over y.
  The lemmas tie these to `PellSolution`, the predicate "(x, y) solves
  x^2 - d*y^2 = 1 in positive integers".
- `Scan` (scan.dfy) holds the driver.
  - `Sieve` is the contents of the `isSquare` array.
  - `BestUpTo` is a reference fold of the scan. It is generic in the value
    function and the skip test; the program's scan is its instance for
    `SolveEquation` and `IsSquare`.
  - `IsFirstArgMax` is the declarative property that fold has.
  - `Search` is the loop itself, over a real array.
- `Answer` (answer.dfy) covers the hard-coded bound 7. It pins down the
  value of the search for d = 2, 3, 5, 6, 7. It proves that the scan ends
  with d = 5 and x = 9, and that `Run`, the entry point, yields 5.

## Model

| member | source | states |
|---|---|---|
| Pell.RootFromIsRoot | Main.java:77-78 | started below every root, the upward root search returns 0 or a root of n, and it returns the root whenever n has one |
| Pell.TestEquationIsExact | Main.java:70-79 | the test returns 0 or a natural number whose square is d*y^2 + 1, and whenever d*y^2 + 1 is the square of a natural k it returns k |
| Pell.TestEquationSoundAndComplete | Main.java:70-79 | for y > 0, a positive result x makes (x, y) a Pell solution, and every Pell solution (x, y) is the one the test returns |
| Pell.TestEquationAt | Main.java:76-78 | once the floor square root r of d*y^2 + 1 is known, the test returns r if r^2 equals it and 0 otherwise |
| Pell.SolveUpToIsMax | Main.java:61-67 | the running maximum over y in [1, hi) bounds every test in that range, and it is 0 or equal to one of them |
| Pell.SolveEquationIsLargestPellX | Main.java:50-68 | a positive result is the x of a Pell solution with some y in 1..9; no solution with y in 1..9 has a larger x; the result is 0 exactly when there is no such solution |
| Pell.SquareCoefficientHasNoSolution | Main.java:34-37 | a positive square d has no Pell solution at all, so its search yields 0 |
| Scan.Sieve | Main.java:32-35 | after the marks for k = 1..upTo the array has length maximum + 1 and entry i is set exactly when i = k^2 for some k in 1..upTo |
| Scan.SieveFlagsExactlySquares | Main.java:33-37 | when the loop reaches d and tests entry d, that entry is set exactly when d is a perfect square |
| Scan.BestUpToIsFirstArgMax | Main.java:33-45 | for any value function and skip test, the scan's fold yields the first arg-max over the d in 1..n that are not skipped: no such d beats it, every earlier one is strictly worse, and d = 0 with x = 0 is kept exactly when none has a positive value |
| Scan.SkippingSquaresChangesNothing | Main.java:33-45 | the scan's fold that skips the squares gives the same (d, x) as the fold that skips no d at all |
| Scan.ScanResultIsFirstArgMax | Main.java:30-47 | the scan's result for a bound is the first arg-max of the search over the non-square d in 1..maximum, and a reported d is a non-square in [2, maximum] |
| Scan.FirstArgMaxIsUnique | Main.java:41-44 | at most one pair (d, x) is the first arg-max, so that property alone fixes the printed d |
| Scan.Search | Main.java:30-45 | the loop over the array ends with the reference fold of `SolveEquation` with the squares skipped, which `Scan.ScanResultIsFirstArgMax` shows is the first arg-max; a reported d is at least 2, because 1 is always skipped |
| Answer.SolveEquationAtTwo | Main.java:59-67 | for d = 2 the search yields 3 (from y = 2) |
| Answer.SolveEquationAtThree | Main.java:59-67 | for d = 3 the search yields 7 (from y = 4) |
| Answer.SolveEquationAtFive | Main.java:59-67 | for d = 5 the search yields 9 (from y = 4) |
| Answer.SolveEquationAtSix | Main.java:59-67 | for d = 6 the search yields 5 (from y = 2) |
| Answer.SolveEquationAtSeven | Main.java:59-67 | for d = 7 the search yields 8 (from y = 3) |
| Answer.SquaresUpToSeven | Main.java:32-37 | among 1..7 the scan skips exactly 1 and 4 |
| Answer.FoldOverSeven | Main.java:33-45 | for any values that skip exactly 1 and 4 and give 3, 7, 9, 5, 8 for d = 2, 3, 5, 6, 7, the fold over 1..7 ends at d = 5, x = 9 |
| Answer.AnswerForSeven | Main.java:30-45 | with the bound 7 the scan ends at d = 5, x = 9 |
| Answer.SolveEquationIsNotMinimal | Main.java:57-67 | for d = 3 both (2, 1) and (7, 4) are solutions, and the search returns 7, the larger x |
| Answer.Run | Main.java:24-48 | the entry point with its bound of 7 prints 5 |

## Left out

- Floating point (Main.java:77, 85-87): `Math.sqrt` followed by the `isInteger` test is replaced by an exact integer root search. Its result agrees with the double computation as long as d*y^2 + 1 stays far below 2^52. A negative d*y^2 + 1, where `Math.sqrt` gives NaN and the test gives 0, also gives 0 in the model.
- Java `int` overflow: `d*y*y + 1` and `d*d` are computed on unbounded integers. With the bound 7 every value stays below 600. In Java, a bound of 46341 or more lets `d*d` wrap to a negative `int` (Main.java:34); that value passes `d*d <= maximum`, and `isSquare[d*d]` then throws an ArrayIndexOutOfBoundsException. The model has no such failure, so the claim that `Scan.Search` holds for every bound holds only for unbounded integers.
- Printing: `System.out.println(maxD)` is modelled as `Answer.Run` returning maxD.
- The bound: `Scan.Search` takes `maximum` as a parameter and is proved for every bound. Only the concrete result is worked out for the hard-coded 7. The 1000 in the header comment is not what the code uses.
- Minimal solutions: the header comment asks for the minimal x of each d. The code returns the largest x among y = 1..9, as its own doc comment for `solveEquation` says, and the model follows the code (see `Answer.SolveEquationIsNotMinimal`). For d = 2, 3, 5, 6, 7 only d = 3 has two solutions in range, so the printed d is still 5.

/**
 The program with its hard-coded bound of 7: the values the equation
 search yields for each non-square d up to 7, and the coefficient it reports.
 */
module Answer {
  import opened Pell
  import opened Scan

  /* The value of the search for each non-square d up to 7. Every one of the
     nine tests is pinned down by the floor square root of d*y^2 + 1. */

  lemma SolveEquationAtTwo()
    ensures SolveEquation(2) == 3
  {
    TestEquationAt(2, 1, 1); TestEquationAt(2, 2, 3); TestEquationAt(2, 3, 4);
    TestEquationAt(2, 4, 5); TestEquationAt(2, 5, 7); TestEquationAt(2, 6, 8);
    TestEquationAt(2, 7, 9); TestEquationAt(2, 8, 11); TestEquationAt(2, 9, 12);
  }

  lemma SolveEquationAtThree()
    ensures SolveEquation(3) == 7
  {
    TestEquationAt(3, 1, 2); TestEquationAt(3, 2, 3); TestEquationAt(3, 3, 5);
    TestEquationAt(3, 4, 7); TestEquationAt(3, 5, 8); TestEquationAt(3, 6, 10);
    TestEquationAt(3, 7, 12); TestEquationAt(3, 8, 13); TestEquationAt(3, 9, 15);
  }

  lemma SolveEquationAtFive()
    ensures SolveEquation(5) == 9
  {
    TestEquationAt(5, 1, 2); TestEquationAt(5, 2, 4); TestEquationAt(5, 3, 6);
    TestEquationAt(5, 4, 9); TestEquationAt(5, 5, 11); TestEquationAt(5, 6, 13);
    TestEquationAt(5, 7, 15); TestEquationAt(5, 8, 17); TestEquationAt(5, 9, 20);
  }

  lemma SolveEquationAtSix()
    ensures SolveEquation(6) == 5
  {
    TestEquationAt(6, 1, 2); TestEquationAt(6, 2, 5); TestEquationAt(6, 3, 7);
    TestEquationAt(6, 4, 9); TestEquationAt(6, 5, 12); TestEquationAt(6, 6, 14);
    TestEquationAt(6, 7, 17); TestEquationAt(6, 8, 19); TestEquationAt(6, 9, 22);
  }

  lemma SolveEquationAtSeven()
    ensures SolveEquation(7) == 8
  {
    TestEquationAt(7, 1, 2); TestEquationAt(7, 2, 5); TestEquationAt(7, 3, 8);
    TestEquationAt(7, 4, 10); TestEquationAt(7, 5, 13); TestEquationAt(7, 6, 15);
    TestEquationAt(7, 7, 18); TestEquationAt(7, 8, 21); TestEquationAt(7, 9, 23);
  }

  /** Among 1..7 exactly 1 and 4 are perfect squares. */
  lemma SquaresUpToSeven()
    ensures IsSquare(1) && IsSquare(4)
    ensures !IsSquare(2) && !IsSquare(3) && !IsSquare(5) && !IsSquare(6) && !IsSquare(7)
  {
    assert IsRoot(1, 1) && IsRoot(2, 4);
    NotSquare(2, 1); NotSquare(3, 1); NotSquare(5, 2); NotSquare(6, 2); NotSquare(7, 2);
  }

  /** The fold over d = 1..7 for any value function that skips exactly 1 and 4
      among them and gives 3, 7, 9, 5, 8 for d = 2, 3, 5, 6, 7. */
  lemma FoldOverSeven(value: int -> nat, skip: int -> bool)
    requires skip(1) && skip(4)
    requires !skip(2) && !skip(3) && !skip(5) && !skip(6) && !skip(7)
    requires value(2) == 3 && value(3) == 7 && value(5) == 9 && value(6) == 5 && value(7) == 8
    ensures BestUpTo(value, skip, 7) == Best(5, 9)
  {
  }

  /** With the bound 7 the program reports d = 5, whose x = 9 beats every other d. */
  lemma AnswerForSeven()
    ensures BestUpTo(SolveEquation, IsSquare, Maximum) == Best(5, 9)
  {
    SquaresUpToSeven();
    SolveEquationAtTwo(); SolveEquationAtThree(); SolveEquationAtFive();
    SolveEquationAtSix(); SolveEquationAtSeven();
    FoldOverSeven(SolveEquation, IsSquare);
  }

  /**
   The search returns the largest x it finds, not the minimal solution: for
   d = 3 both (2, 1) and (7, 4) solve the equation, and the result is 7.
   */
  lemma SolveEquationIsNotMinimal()
    ensures PellSolution(3, 2, 1) && PellSolution(3, 7, 4)
    ensures SolveEquation(3) == 7
  {
    SolveEquationAtThree();
  }

  /** The program's entry point with its bound of 7: it prints the d of the scan. */
  method Run() returns (printed: nat)
    ensures printed == 5
  {
    var maxD, maxX := Search(Maximum);
    AnswerForSeven();
    printed := maxD;
  }
}

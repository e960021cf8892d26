/**
  The three versions of `sum_to_n` (src/problem1/result.js): the closed form n(n+1)/2, a loop
  that adds 1..n into an accumulator, and a fold of `+` over the array [1, ..., n].

  `n` is an integer and the results are exact integers: JavaScript's 2^53 limit on exact
  integers is not modelled.
*/
module SumToN {

  /** The sum 1 + 2 + ... + n; the empty sum 0 when n <= 0. */
  function Sum1To(n: int): int
    decreases if n > 0 then n else 0
  {
    if n <= 0 then 0 else Sum1To(n - 1) + n
  }

  /**
    `(n * (n + 1)) / 2`. One of two consecutive integers is even, so JavaScript's division
    is exact here and agrees with integer division.
  */
  function SumFormula(n: int): (r: int)
    ensures 2 * r == n * (n + 1)
  {
    ProductEven(n);
    (n * (n + 1)) / 2
  }

  /** The loop version: `sum += i` for `i` from 1 while `i <= n`. */
  method SumLoop(n: int) returns (sum: int)
    ensures sum == Sum1To(n)
    ensures n >= 0 ==> 2 * sum == n * (n + 1)
    ensures n <= 0 ==> sum == 0
  {
    sum := 0;
    var i := 1;
    while i <= n
      invariant 1 <= i <= (if n >= 0 then n + 1 else 1)
      invariant sum == Sum1To(i - 1)
      invariant 2 * sum == (i - 1) * i
    {
      sum := sum + i;
      i := i + 1;
    }
  }

  /** `Array.from({ length: n }, (_, i) => i + 1)`; a negative length gives the empty array. */
  function Range(n: int): (s: seq<int>)
    ensures |s| == (if n > 0 then n else 0)
    ensures forall i | 0 <= i < |s| :: s[i] == i + 1
  {
    if n <= 0 then [] else seq(n, i requires 0 <= i < n => i + 1)
  }

  /** `s.reduce((acc, cur) => acc + cur, acc)`: a left fold of `+`. */
  function FoldAdd(acc: int, s: seq<int>): int
    decreases s
  {
    if s == [] then acc else FoldAdd(acc + s[0], s[1..])
  }

  /** The array version. */
  function SumReduce(n: int): (r: int)
    ensures r == Sum1To(n)
  {
    ReduceIsSum(n);
    FoldAdd(0, Range(n))
  }

  // ---------------------------------------------------------------------------
  // Lemmas
  // ---------------------------------------------------------------------------

  /** The product of two consecutive integers is even. */
  lemma ProductEven(n: int)
    ensures (n * (n + 1)) % 2 == 0
  {
    var k := n / 2;
    if n % 2 == 0 {
      assert n * (n + 1) == 2 * (k * (n + 1));
    } else {
      assert n + 1 == 2 * (k + 1);
      assert n * (n + 1) == 2 * (n * (k + 1));
    }
  }

  /** The closed form is the sum 1..n for every n >= 0, as its comment promises. */
  lemma {:induction false} FormulaIsSum(n: int)
    requires n >= 0
    ensures SumFormula(n) == Sum1To(n)
  {
    if n > 0 {
      FormulaIsSum(n - 1);
      assert 2 * SumFormula(n - 1) == (n - 1) * n;
      assert 2 * SumFormula(n) == n * (n + 1);
    }
  }

  /** Folding one more element at the end adds it to the result. */
  lemma {:induction false} FoldAddSnoc(acc: int, s: seq<int>, x: int)
    ensures FoldAdd(acc, s + [x]) == FoldAdd(acc, s) + x
    decreases s
  {
    if s == [] {
      assert s + [x] == [x];
      assert [x][1..] == [];
    } else {
      assert (s + [x])[1..] == s[1..] + [x];
      FoldAddSnoc(acc + s[0], s[1..], x);
    }
  }

  /** The array version folds to the sum 1..n for every n, and to 0 when n <= 0. */
  lemma {:induction false} ReduceIsSum(n: int)
    ensures FoldAdd(0, Range(n)) == Sum1To(n)
    decreases if n > 0 then n else 0
  {
    if n > 0 {
      ReduceIsSum(n - 1);
      assert Range(n) == Range(n - 1) + [n];
      FoldAddSnoc(0, Range(n - 1), n);
    }
  }

  /** The loop and the array versions agree on every n; all three agree on every n >= 0. */
  method AllAgree(n: int) returns (loop: int, reduce: int, formula: int)
    ensures loop == reduce
    ensures n >= 0 ==> loop == formula
    ensures n <= 0 ==> loop == 0
  {
    loop := SumLoop(n);
    reduce := SumReduce(n);
    formula := SumFormula(n);
    if n >= 0 {
      FormulaIsSum(n);
    }
  }

  /**
    For n <= -2 the closed form is positive while the loop and the array sum nothing: the
    versions are interchangeable only on n >= -1. For n = -2 the formula gives 1.
  */
  lemma FormulaDivergesBelowMinusOne(n: int)
    requires n <= -2
    ensures SumFormula(n) >= 1 && Sum1To(n) == 0 && SumReduce(n) == 0
  {
    assert n * (n + 1) > 0 by {
      assert -n > 0 && -(n + 1) > 0;
      assert n * (n + 1) == (-n) * (-(n + 1));
    }
  }

  /** At -1 the formula gives 0, like the other two. */
  lemma FormulaAtMinusOne()
    ensures SumFormula(-1) == Sum1To(-1) == 0
  {
  }

  /** The smallest disagreement: n = -2. */
  lemma FormulaAtMinusTwo()
    ensures SumFormula(-2) == 1 && SumReduce(-2) == 0
  {
    FormulaDivergesBelowMinusOne(-2);
  }
}

/**
 * Polynomials over complex coefficients: c[k] is the coefficient of t^k.
 * DirectEval is the value the evaluator must produce, the sum of
 * c[k] * t^k; Horner is an auxiliary form, used to prove the even/odd
 * split on which the recursive evaluator rests.
 */
module Polynomial {
  import opened ComplexArith
  import opened Parity

  /** t^n, by repeated Mul. */
  function Pow(t: Complex, n: nat): Complex
  {
    if n == 0 then One else Mul(t, Pow(t, n - 1))
  }

  /** The direct value sum_{k < |c|} c[k] * t^k, summed from the last term. */
  function DirectEval(c: seq<Complex>, t: Complex): Complex
  {
    if |c| == 0 then Zero
    else Add(DirectEval(c[..|c| - 1], t), Mul(c[|c| - 1], Pow(t, |c| - 1)))
  }

  /** The values of the polynomial c at each of the points xs, in order. */
  function EvalAt(c: seq<Complex>, xs: seq<Complex>): (r: seq<Complex>)
    ensures |r| == |xs|
  {
    seq(|xs|, k requires 0 <= k < |xs| => DirectEval(c, xs[k]))
  }

  /** Evaluating at a slice of the points gives the same slice of the values. */
  lemma EvalAtSlice(c: seq<Complex>, xs: seq<Complex>, lo: int, hi: int)
    requires 0 <= lo <= hi <= |xs|
    ensures EvalAt(c, xs)[lo..hi] == EvalAt(c, xs[lo..hi])
  {
  }

  /**
   * Values of equal polynomials at equal points are equal: a solver hint
   * that names the equal terms, used where the verifier would otherwise have
   * to rediscover them from array snapshots.
   */
  lemma SameValues(vals: seq<Complex>, c1: seq<Complex>, c2: seq<Complex>, xs1: seq<Complex>, xs2: seq<Complex>)
    requires vals == EvalAt(c1, xs1) && c1 == c2 && xs1 == xs2
    ensures vals == EvalAt(c2, xs2)
  {
  }

  /** Horner's rule: c[0] + t * (c[1] + t * (...)). */
  function Horner(c: seq<Complex>, t: Complex): Complex
  {
    if |c| == 0 then Zero else Add(c[0], Mul(t, Horner(c[1..], t)))
  }

  /** A polynomial of degree 0 is constant: the evaluator's first base case. */
  lemma DirectEvalConstant(a: Complex, t: Complex)
    ensures DirectEval([a], t) == a
  {
    assert [a][..0] == [];
  }

  /** A polynomial of degree 1 is a + b * t: the evaluator's second base case. */
  lemma DirectEvalLinear(a: Complex, b: Complex, t: Complex)
    ensures DirectEval([a, b], t) == Add(a, Mul(b, t))
  {
    assert [a, b][..1] == [a];
    DirectEvalConstant(a, t);
    assert Pow(t, 1) == Mul(t, One);
  }

  /** One ring identity per induction step below; all are polynomial identities in the components. */
  lemma SnocStep(c0: Complex, t: Complex, h: Complex, a: Complex, p: Complex)
    ensures Add(c0, Mul(t, Add(h, Mul(a, p)))) == Add(Add(c0, Mul(t, h)), Mul(a, Mul(t, p)))
  {
    MulDistributesOverAdd(t, h, Mul(a, p));
    MulAssociative(t, a, p);
    MulCommutative(t, a);
    MulAssociative(a, t, p);
  }

  lemma SplitStep(c0: Complex, c1: Complex, t: Complex, e: Complex, o: Complex)
    ensures Add(c0, Mul(t, Add(c1, Mul(t, Add(e, Mul(t, o))))))
         == Add(Add(c0, Mul(Mul(t, t), e)), Mul(t, Add(c1, Mul(Mul(t, t), o))))
  {
    var q, u := Mul(t, t), Mul(t, o);
    calc {
      Add(c0, Mul(t, Add(c1, Mul(t, Add(e, u)))));
      { MulDistributesOverAdd(t, c1, Mul(t, Add(e, u))); }
      Add(c0, Add(Mul(t, c1), Mul(t, Mul(t, Add(e, u)))));
      { MulAssociative(t, t, Add(e, u)); }
      Add(c0, Add(Mul(t, c1), Mul(q, Add(e, u))));
      { MulDistributesOverAdd(q, e, u); }
      Add(c0, Add(Mul(t, c1), Add(Mul(q, e), Mul(q, u))));
      { MulAssociative(q, t, o); MulCommutative(q, t); MulAssociative(t, q, o); }
      Add(c0, Add(Mul(t, c1), Add(Mul(q, e), Mul(t, Mul(q, o)))));
      Add(Add(c0, Mul(q, e)), Add(Mul(t, c1), Mul(t, Mul(q, o))));
      { MulDistributesOverAdd(t, c1, Mul(q, o)); }
      Add(Add(c0, Mul(q, e)), Mul(t, Add(c1, Mul(q, o))));
    }
  }

  /** Appending a coefficient adds its term: Horner(c + [a]) = Horner(c) + a * t^|c|. */
  lemma {:induction false} HornerSnoc(c: seq<Complex>, a: Complex, t: Complex)
    ensures Horner(c + [a], t) == Add(Horner(c, t), Mul(a, Pow(t, |c|)))
  {
    if |c| == 0 {
      assert [a][1..] == [];
    } else {
      assert (c + [a])[1..] == c[1..] + [a];
      HornerSnoc(c[1..], a, t);
      SnocStep(c[0], t, Horner(c[1..], t), a, Pow(t, |c| - 1));
    }
  }

  /** Horner's rule computes the direct sum. */
  lemma {:induction false} HornerIsDirect(c: seq<Complex>, t: Complex)
    ensures Horner(c, t) == DirectEval(c, t)
  {
    if |c| > 0 {
      var init := c[..|c| - 1];
      HornerIsDirect(init, t);
      assert c == init + [c[|c| - 1]];
      HornerSnoc(init, c[|c| - 1], t);
    }
  }

  /** The even/odd split in Horner form. */
  lemma {:induction false} HornerSplit(c: seq<Complex>, t: Complex)
    ensures Horner(c, t) == Add(Horner(Evens(c), Mul(t, t)), Mul(t, Horner(Odds(c), Mul(t, t))))
  {
    var t2 := Mul(t, t);
    if |c| == 0 {
    } else if |c| == 1 {
      assert c[1..] == [];
    } else {
      var r := c[2..];
      HornerSplit(r, t);
      assert c[1..][1..] == r;
      assert Evens(c) == [c[0]] + Evens(r) && (Evens(c))[1..] == Evens(r);
      assert Odds(c) == [c[1]] + Odds(r) && (Odds(c))[1..] == Odds(r);
      SplitStep(c[0], c[1], t, Horner(Evens(r), t2), Horner(Odds(r), t2));
    }
  }

  /**
   * The recurrence behind the recursive evaluator: a polynomial's value at t
   * is E(t^2) + t * O(t^2), E and O being the polynomials of its even- and
   * odd-indexed coefficients.
   */
  lemma EvenOddSplit(c: seq<Complex>, t: Complex)
    ensures DirectEval(c, t)
         == Add(DirectEval(Evens(c), Mul(t, t)), Mul(t, DirectEval(Odds(c), Mul(t, t))))
  {
    HornerSplit(c, t);
    HornerIsDirect(c, t);
    HornerIsDirect(Evens(c), Mul(t, t));
    HornerIsDirect(Odds(c), Mul(t, t));
  }
}

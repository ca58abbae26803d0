/** Exact arithmetic stand-ins for the floating-point helpers of the engine.

    Python's `sum(d.values())` is modelled as an order-free `Sum` over a finite
    map, and `math.log` / `math.sqrt` are left uninterpreted: they are passed in as
    function values, and only the handful of facts the proofs need are assumed of
    them, through the predicates below. */
module Numerics {

  /** `math.log` is positive above 1 and never decreases on the positive reals. */
  ghost predicate LnLaws(ln: real -> real)
  {
    && (forall x :: x > 1.0 ==> ln(x) > 0.0)
    && (forall x, y :: 0.0 < x <= y ==> ln(x) <= ln(y))
  }

  /** `math.sqrt` is non-negative on the non-negative reals and zero only at zero. */
  ghost predicate SqrtLaws(sqrt: real -> real)
  {
    forall x :: x >= 0.0 ==> sqrt(x) >= 0.0 && (sqrt(x) == 0.0 <==> x == 0.0)
  }

  /** `math.sqrt` squares back to its argument (only needed for self-similarity). */
  ghost predicate SqrtSquares(sqrt: real -> real)
  {
    forall x :: x >= 0.0 ==> sqrt(x) * sqrt(x) == x
  }

  /** The sum of the values of a finite map, taken in an unspecified key order. */
  ghost function Sum(m: map<string, real>): real
    decreases |m|
  {
    if |m| == 0 then 0.0
    else
      var k :| k in m;
      m[k] + Sum(m - {k})
  }

  /** Every key can be the one summed first: the key order does not matter. */
  lemma {:induction false} SumRemove(m: map<string, real>, k: string)
    requires k in m
    ensures Sum(m) == m[k] + Sum(m - {k})
    decreases |m|
  {
    var j := SumChoice(m);
    if j != k {
      var mj := m - {j};
      var mk := m - {k};
      RemoveSize(m, j);
      RemoveSize(m, k);
      assert k in mj && j in mk;
      SumRemove(mj, k);
      SumRemove(mk, j);
      assert mj - {k} == mk - {j};
    }
  }

  /** The key `Sum` peels off first. */
  lemma SumChoice(m: map<string, real>) returns (j: string)
    requires |m| != 0
    ensures j in m && Sum(m) == m[j] + Sum(m - {j})
  {
    j :| j in m && Sum(m) == m[j] + Sum(m - {j});
  }

  /** Removing a present key shrinks a map by one. */
  lemma RemoveSize(m: map<string, real>, k: string)
    requires k in m
    ensures |m - {k}| == |m| - 1
  {
    assert (m - {k}).Keys == m.Keys - {k};
  }

  /** Overwriting one entry changes the sum by the difference of the values. */
  lemma SumUpdate(m: map<string, real>, k: string, v: real)
    ensures Sum(m[k := v]) == Sum(m) - (if k in m then m[k] else 0.0) + v
  {
    SumRemove(m[k := v], k);
    assert m[k := v] - {k} == m - {k};
    if k in m {
      SumRemove(m, k);
    } else {
      assert m - {k} == m;
    }
  }

  /** A sum of non-negative values is non-negative, and zero exactly when every value is. */
  lemma {:induction false} SumNonNegative(m: map<string, real>)
    requires forall k :: k in m ==> m[k] >= 0.0
    ensures Sum(m) >= 0.0
    ensures Sum(m) == 0.0 <==> forall k :: k in m ==> m[k] == 0.0
    decreases |m|
  {
    if |m| != 0 {
      var k :| k in m;
      var rest := m - {k};
      SumRemove(m, k);
      SumNonNegative(rest);
      if Sum(m) == 0.0 {
        forall j | j in m
          ensures m[j] == 0.0
        {
          if j != k {
            assert j in rest;
          }
        }
      }
    }
  }

  /** Dividing every value by the same non-zero constant divides the sum by it. */
  lemma {:induction false} SumDivide(m: map<string, real>, c: real)
    requires c != 0.0
    ensures Sum(map k | k in m :: m[k] / c) == Sum(m) / c
    decreases |m|
  {
    var q := map k | k in m :: m[k] / c;
    if |m| != 0 {
      var k :| k in m;
      var rest := m - {k};
      RemoveSize(m, k);
      SumRemove(m, k);
      SumRemove(q, k);
      DivideRemove(m, c, k);
      SumDivide(rest, c);
      DivideSum(m[k], Sum(rest), c);
    } else {
      assert q == map[];
    }
  }

  lemma DivideRemove(m: map<string, real>, c: real, k: string)
    requires c != 0.0
    ensures (map j | j in m :: m[j] / c) - {k} == map j | j in m - {k} :: (m - {k})[j] / c
  {
  }

  lemma DivideSum(a: real, b: real, c: real)
    requires c != 0.0
    ensures a / c + b / c == (a + b) / c
  {
  }

  lemma DivideBySelf(c: real)
    requires c != 0.0
    ensures c / c == 1.0
  {
  }
}

// The C library's rand(), which every generator and fix() call.
module Random {

  /** rand() % n for n >= 1.  A draw is never negative, so C's remainder is
      the mathematical one; it is computed by repeated subtraction, which
      keeps the proofs that use it free of nonlinear arithmetic, and
      RandModIsRem ties it to `%`. */
  function RandMod(draw: nat, n: int): (r: nat)
    requires n >= 1
    ensures r < n
    decreases draw
  {
    if draw < n then draw else RandMod(draw - n, n)
  }

  lemma {:induction false} RandModIsRem(draw: nat, n: int)
    requires n >= 1
    ensures RandMod(draw, n) == draw % n
    decreases draw
  {
    if draw >= n {
      RandModIsRem(draw - n, n);
      var q := (draw - n) / n;
      assert draw == (q + 1) * n + RandMod(draw, n);
      RemUnique(draw, n, q + 1, RandMod(draw, n));
    }
  }

  /** x = q*n + r with 0 <= r < n determines r as x % n. */
  lemma RemUnique(x: int, n: int, q: int, r: int)
    requires n >= 1 && 0 <= r < n && x == q * n + r
    ensures x % n == r
  {
    var q2 := x / n;
    assert x == q2 * n + x % n;
    if q < q2 {
      MulStep(q, q2, n);
    } else if q2 < q {
      MulStep(q2, q, n);
    }
  }

  /** x = q*n + r with 0 <= r < n determines q as x / n. */
  lemma DivUnique(x: int, n: int, q: int, r: int)
    requires n >= 1 && 0 <= r < n && x == q * n + r
    ensures x / n == q
  {
    RemUnique(x, n, q, r);
    var q2 := x / n;
    assert x == q2 * n + r;
    if q < q2 {
      MulStep(q, q2, n);
    } else if q2 < q {
      MulStep(q2, q, n);
    }
  }

  lemma MulStep(a: int, b: int, n: int)
    requires a < b && n >= 1
    ensures a * n + n <= b * n
  {
    assert b * n - a * n == (b - a) * n;
    assert (b - a) * n == (b - a - 1) * n + n;
  }

  /** A pseudo-random source: successive calls of Next yield successive draws
      of a stream the caller supplies, as successive calls of rand() yield
      non-negative numbers.  Callers reduce a draw with `% n` themselves, as
      the source does. */
  class Rng {
    const draws: nat -> nat
    var pos: nat

    constructor (draws: nat -> nat)
      ensures this.draws == draws && pos == 0
    {
      this.draws := draws;
      pos := 0;
    }

    /** The draw the next call of Next will yield. */
    function Peek(): nat
      reads this
    {
      draws(pos)
    }

    method Next() returns (r: nat)
      modifies this
      ensures r == draws(old(pos)) && pos == old(pos) + 1
    {
      r := draws(pos);
      pos := pos + 1;
    }
  }
}

/** The few facts about products and quotients of naturals that the byte layouts need. */
module Arithmetic {

  /** `n * step` as a repeated sum. Layout proofs use it to stay within linear arithmetic. */
  function Times(n: nat, step: nat): nat
    decreases n
  {
    if n == 0 then 0 else step + Times(n - 1, step)
  }

  lemma {:induction false} TimesIsProduct(n: nat, step: nat)
    ensures Times(n, step) == n * step
    decreases n
  {
    if n > 0 {
      TimesIsProduct(n - 1, step);
      assert n * step == step + (n - 1) * step;
    }
  }

  lemma {:induction false} TimesAdd(a: nat, b: nat, step: nat)
    ensures Times(a + b, step) == Times(a, step) + Times(b, step)
    decreases a
  {
    if a > 0 {
      TimesAdd(a - 1, b, step);
    }
  }

  lemma TimesMono(a: nat, b: nat, step: nat)
    requires a <= b
    ensures Times(a, step) <= Times(b, step)
    ensures a < b ==> Times(a, step) + step <= Times(b, step)
  {
    TimesAdd(a, b - a, step);
  }

  lemma {:induction false} TimesAtLeast(n: nat, step: nat)
    requires step > 0
    ensures n <= Times(n, step)
    decreases n
  {
    if n > 0 {
      TimesAtLeast(n - 1, step);
    }
  }

  /** Quotient and remainder, by repeated sum. */
  lemma DivMod(x: nat, b: nat)
    requires b > 0
    ensures x == Times(x / b, b) + x % b && x % b < b
  {
    TimesIsProduct(x / b, b);
  }

  lemma DivUnique(x: nat, b: nat, q: nat, r: nat)
    requires b > 0 && x == Times(q, b) + r && r < b
    ensures x / b == q && x % b == r
  {
    DivMod(x, b);
    QuotientUnique(b, x / b, x % b, q, r);
  }

  lemma QuotientUnique(b: nat, q: nat, r: nat, q': nat, r': nat)
    requires r < b && r' < b && Times(q, b) + r == Times(q', b) + r'
    ensures q == q' && r == r'
  {
    if q < q' {
      TimesMono(q, q', b);
    } else if q' < q {
      TimesMono(q', q, b);
    }
  }

  lemma DivLess(x: nat, b: nat, k: nat)
    requires b > 0
    ensures x / b < k <==> x < Times(k, b)
  {
    DivMod(x, b);
    QuotientLess(x, b, x / b, k);
  }

  lemma QuotientLess(x: nat, b: nat, q: nat, k: nat)
    requires Times(q, b) <= x < Times(q, b) + b
    ensures q < k <==> x < Times(k, b)
  {
    if q < k {
      TimesMono(q, k, b);
    } else {
      TimesMono(k, q, b);
    }
  }

  function CeilDiv(a: nat, b: nat): nat
    requires b > 0
  {
    (a + b - 1) / b
  }

  /** The rounded-up quotient is the least number of blocks that cover `a`. */
  lemma CeilDivBounds(a: nat, b: nat)
    requires b > 0
    ensures a <= Times(CeilDiv(a, b), b) < a + b
  {
    DivMod(a + b - 1, b);
  }

  lemma CeilDivUnique(a: nat, b: nat, q: nat)
    requires b > 0 && a <= Times(q, b) < a + b
    ensures CeilDiv(a, b) == q
  {
    DivUnique(a + b - 1, b, q, a + b - 1 - Times(q, b));
  }

  lemma CeilDivStep(a: nat, b: nat)
    requires b > 0
    ensures a > 0 ==> CeilDiv(a, b) == 1 + CeilDiv(if a > b then a - b else 0, b)
    ensures CeilDiv(0, b) == 0
  {
    CeilDivUnique(0, b, 0);
    if a > 0 {
      var rest := if a > b then a - b else 0;
      CeilDivBounds(rest, b);
      if rest == 0 {
        CeilDivUnique(a, b, 1);
      } else {
        CeilDivUnique(a, b, 1 + CeilDiv(rest, b));
      }
    }
  }
}

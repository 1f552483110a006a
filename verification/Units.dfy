/** Multiples and quotients by repeated addition, for shifts by a block or page size. */
module Units {
  function Times(n: nat, d: nat): (t: nat)
    ensures n > 0 ==> t >= d
  {
    if n == 0 then 0 else Times(n - 1, d) + d
  }

  /** x >> log2(d). */
  function Div(x: nat, d: nat): (q: nat)
    requires d > 0
    decreases x
  {
    if x < d then 0 else 1 + Div(x - d, d)
  }

  /** x & (d - 1). */
  function Mod(x: nat, d: nat): (r: nat)
    requires d > 0
    decreases x
    ensures r < d
  {
    if x < d then x else Mod(x - d, d)
  }

  lemma {:induction false} TimesIsProduct(n: nat, d: nat)
    ensures Times(n, d) == n * d
  {
    if n > 0 {
      TimesIsProduct(n - 1, d);
      assert n * d == (n - 1) * d + d;
    }
  }

  lemma {:induction false} TimesAdd(m: nat, n: nat, d: nat)
    ensures Times(m + n, d) == Times(m, d) + Times(n, d)
    decreases n
  {
    if n > 0 {
      TimesAdd(m, n - 1, d);
    }
  }

  lemma TimesMono(m: nat, n: nat, d: nat)
    requires m <= n
    ensures Times(m, d) <= Times(n, d)
    ensures m < n ==> Times(m, d) + d <= Times(n, d)
  {
    TimesAdd(m, n - m, d);
  }

  lemma {:induction false} DivMod(x: nat, d: nat)
    requires d > 0
    ensures x == Times(Div(x, d), d) + Mod(x, d)
    decreases x
  {
    if x >= d {
      DivMod(x - d, d);
    }
  }

  /** The quotient is the only number of whole d in x. */
  lemma DivUnique(x: nat, d: nat, q: nat)
    requires d > 0 && Times(q, d) <= x < Times(q, d) + d
    ensures Div(x, d) == q && Mod(x, d) == x - Times(q, d)
  {
    DivMod(x, d);
    if Div(x, d) < q {
      TimesMono(Div(x, d), q, d);
    } else if q < Div(x, d) {
      TimesMono(q, Div(x, d), d);
    }
  }

  /** There is only one quotient with a remainder below d. */
  lemma QuotientIs(x: nat, d: nat, q: nat, r: nat)
    requires r < d && x == q * d + r
    ensures x / d == q && x % d == r
  {
    var k := q - x / d;
    assert k * d == x % d - r;
    if k != 0 {
      NoSmallMultiple(k, d);
    }
  }

  lemma NoSmallMultiple(k: int, d: nat)
    requires k != 0 && d > 0
    ensures k * d >= d || -(k * d) >= d
  {
    if k > 0 {
      assert k * d == (k - 1) * d + d;
    } else {
      assert -(k * d) == (-k - 1) * d + d;
    }
  }

  lemma DivModAreBuiltIn(x: nat, d: nat)
    requires d > 0
    ensures Div(x, d) == x / d && Mod(x, d) == x % d
  {
    DivMod(x, d);
    TimesIsProduct(Div(x, d), d);
    QuotientIs(x, d, Div(x, d), Mod(x, d));
  }

  /** (x + d - 1) >> log2(d) is the first multiple that is not below x. */
  lemma RoundUp(x: nat, d: nat, b: nat)
    requires d > 0
    ensures Div(x + d - 1, d) <= b <==> x <= Times(b, d)
  {
    var q := Div(x + d - 1, d);
    DivMod(x + d - 1, d);
    if q <= b {
      TimesMono(q, b, d);
    } else {
      TimesMono(b, q, d);
    }
  }

  lemma RoundDown(x: nat, d: nat, b: nat)
    requires d > 0
    ensures b < Div(x, d) <==> Times(b, d) + d <= x
  {
    var q := Div(x, d);
    DivMod(x, d);
    if b < q {
      TimesMono(b, q, d);
    } else {
      TimesMono(q, b, d);
    }
  }

  lemma {:induction false} TimesTwice(n: nat, k: nat, d: nat)
    ensures Times(n, Times(k, d)) == Times(Times(n, k), d)
    decreases n
  {
    if n > 0 {
      TimesTwice(n - 1, k, d);
      TimesAdd(Times(n - 1, k), k, d);
    }
  }
}

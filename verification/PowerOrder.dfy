/** Which exponents give equal powers: the multiplicative group has order 255, and 3 generates it. */
module PowerOrder {
  import opened Field

  lemma {:induction false} PowPeriod(a: byte, k: nat, r: nat)
    requires a != 0
    ensures Pow(a, 255 * k + r) == Pow(a, r)
  {
    hide Pow, Mul;
    if k > 0 {
      PowPeriod(a, k - 1, r);
      PowAdd(a, 255, 255 * (k - 1) + r);
      OrderLaw(a);
      One(Pow(a, 255 * (k - 1) + r));
    }
  }

  lemma PowModulo(a: byte, n: nat)
    requires a != 0
    ensures Pow(a, n) == Pow(a, n % 255)
  {
    hide Pow;
    PowPeriod(a, n / 255, n % 255);
  }

  // ---- powers of 3 ----

  lemma Tripled(x: byte)
    ensures Mul(3, x) == Add(x, Xtime(x))
  {
    Commutes(3, x);
    Unrolled(x, 3);
  }

  /** One step of square-and-multiply on a power of 3. */
  function Next(p: byte, odd: bool): byte { if odd then Add(Spread(p), Xtime(Spread(p))) else Spread(p) }

  lemma PowNext(n: nat)
    ensures Pow(3, 2 * n) == Next(Pow(3, n), false) && Pow(3, 2 * n + 1) == Next(Pow(3, n), true)
  {
    assert Pow(3, 2 * n + 1) == Mul(3, Pow(3, 2 * n));
    hide Pow, Mul, Spread;
    PowDouble(3, n);
    Tripled(Pow(3, 2 * n));
  }

  lemma NextValues()
    ensures Next(Next(Next(Next(1, true), true), true), true) != 1
    ensures Next(Next(Next(Next(Next(Next(1, true), true), false), false), true), true) != 1
    ensures Next(Next(Next(Next(Next(Next(Next(1, true), false), true), false), true), false), true) != 1
  {}

  lemma PowStart()
    ensures Pow(3, 0) == 1
  {}

  /** 15, 51 and 85 are 255 divided by its prime factors. */
  lemma PowersOfThree()
    ensures Pow(3, 15) != 1 && Pow(3, 51) != 1 && Pow(3, 85) != 1
  {
    PowStart();
    hide *;
    PowNext(0);
    PowNext(1); PowNext(3); PowNext(7);
    PowNext(6); PowNext(12); PowNext(25);
    PowNext(2); PowNext(5); PowNext(10); PowNext(21); PowNext(42);
    NextValues();
  }

  lemma {:induction false} PowOfOne(a: byte, d: nat, k: nat)
    requires Pow(a, d) == 1
    ensures Pow(a, d * k) == 1
  {
    hide Mul;
    if k > 0 {
      PowOfOne(a, d, k - 1);
      assert d * k == d + d * (k - 1);
      PowAdd(a, d, d * (k - 1));
      One(1);
    } else {
      assert d * k == 0;
    }
  }

  lemma DivMod(n: nat, d: nat)
    requires d > 0
    ensures n == d * (n / d) + n % d
  {}

  /** The remainder of two exponents that give 1 gives 1. */
  lemma PowRemainder(a: byte, n: nat, d: nat)
    requires d > 0 && Pow(a, n) == 1 && Pow(a, d) == 1
    ensures Pow(a, n % d) == 1
  {
    hide Pow, Mul;
    DivMod(n, d);
    PowOfOne(a, d, n / d);
    PowAdd(a, d * (n / d), n % d);
    One(Pow(a, n % d));
  }

  /** A proper divisor of 255 divides 15, 51 or 85. */
  lemma Divisors(d: nat, q: nat) returns (k: nat)
    requires d * q == 255 && q > 1
    ensures d * k == 15 || d * k == 51 || d * k == 85
  {
    if q > 15 {
      SmallFactor(d, q);
      k := if d == 1 then 15 else if d == 3 then 5 else if d == 5 then 3 else 1;
    } else {
      k := if q == 3 then 1 else if q == 5 then 1 else if q == 15 then 5 else 1;
      SmallCofactor(d, q);
    }
  }

  lemma SmallFactor(d: nat, q: nat)
    requires d * q == 255 && q > 15
    ensures d == 1 || d == 3 || d == 5 || d == 15
  {
    if d > 15 {
      AtLeast256(d, q);
    }
    if d == 0 {} else if d == 2 {} else if d == 4 {} else if d == 6 {} else if d == 7 {} else if d == 8 {} else if d == 9 {}
    else if d == 10 {} else if d == 11 {} else if d == 12 {} else if d == 13 {} else if d == 14 {} else {}
  }

  lemma AtLeast256(d: nat, q: nat)
    requires d >= 16 && q >= 16
    ensures d * q >= 256
  {
    assert d * q >= 16 * q;
  }

  lemma SmallCofactor(d: nat, q: nat)
    requires d * q == 255 && 1 < q <= 15
    ensures (q == 3 && d == 85) || (q == 5 && d == 51) || (q == 15 && d == 17)
  {
    if q == 2 {} else if q == 4 {} else if q == 6 {} else if q == 7 {} else if q == 8 {} else if q == 9 {}
    else if q == 10 {} else if q == 11 {} else if q == 12 {} else if q == 13 {} else if q == 14 {} else {}
  }

  /** No positive exponent below 255 takes 3 to 1. */
  lemma {:induction false} ThreeGenerates(d: nat)
    requires 0 < d < 255
    ensures Pow(3, d) != 1
    decreases d
  {
    hide Pow;
    if Pow(3, d) == 1 {
      OrderLaw(3);
      PowRemainder(3, 255, d);
      if 255 % d > 0 {
        ThreeGenerates(255 % d);
      } else {
        DivMod(255, d);
        ProperDivisor(d);
        var k := Divisors(d, 255 / d);
        PowOfOne(3, d, k);
        PowersOfThree();
      }
    }
  }

  lemma ProperDivisor(d: nat)
    requires 0 < d < 255 && 255 % d == 0
    ensures d * (255 / d) == 255 && 255 / d > 1
  {
    DivMod(255, d);
  }

  ghost predicate SamePowers(m: nat, n: nat) { forall a: byte :: a != 0 ==> Pow(a, m) == Pow(a, n) }

  /** Two exponents give equal powers of every nonzero element exactly when they agree modulo 255. */
  lemma SamePowersIff(m: nat, n: nat)
    ensures SamePowers(m, n) <==> m % 255 == n % 255
  {
    hide Pow;
    if SamePowers(m, n) {
      assert Pow(3, m) == Pow(3, n);
      PowModulo(3, m);
      PowModulo(3, n);
      if m % 255 < n % 255 {
        ThreeApart(m % 255, n % 255);
      } else if n % 255 < m % 255 {
        ThreeApart(n % 255, m % 255);
      }
    }
    if m % 255 == n % 255 {
      forall a: byte | a != 0 ensures Pow(a, m) == Pow(a, n) {
        PowModulo(a, m);
        PowModulo(a, n);
      }
    }
  }

  lemma ThreeApart(r: nat, s: nat)
    requires r < s < 255
    ensures Pow(3, r) != Pow(3, s)
  {
    hide Pow, Mul;
    if Pow(3, r) == Pow(3, s) {
      // 3^(255 - s + r) == 3^255 == 1
      PowAdd(3, 255 - s, r);
      PowAdd(3, 255 - s, s);
      OrderLaw(3);
      ThreeGenerates(255 - s + r);
    }
  }
}

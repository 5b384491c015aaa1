/** The field GF(2^8) of section 4.2 of FIPS 197, with its laws. */
module Field {
  type byte = bv8

  lemma ByteOfInt(v: int)
    requires 0 <= v < 256
    ensures (v as byte) as int == v
  {
    if v < 16 {} else if v < 32 {} else if v < 64 {} else if v < 128 {} else if v < 192 {} else {}
  }

  // ---- the arithmetic, one function per operation ----

  function Add(a: byte, b: byte): byte { a ^ b }

  /** Multiplication by the polynomial x, reduced modulo 0x11b. */
  function Xtime(a: byte): byte { (a << 1) ^ (0x1b & (0 - (a >> 7))) }

  function Half(b: byte): byte { b >> 1 }

  function Term(a: byte, b: byte): byte { a & (0 - (b & 1)) }

  /** The sum of b_i * x^i * a over the `n` low bits of `b`. */
  function MulSteps(a: byte, b: byte, n: nat): byte
    decreases n, b
  {
    if n == 0 then 0 else Add(Term(a, b), MulSteps(Xtime(a), Half(b), n - 1))
  }

  function Mul(a: byte, b: byte): byte { MulSteps(a, b, 8) }

  function Pow(a: byte, n: nat): byte {
    if n == 0 then 1 else Mul(a, Pow(a, n - 1))
  }

  function Inv(a: byte): byte { Pow(a, 254) }

  // ---- addition ----

  lemma AddZero(a: byte)
    ensures Add(a, 0) == a && Add(0, a) == a && Add(a, a) == 0
  {}

  lemma AddCommutes(a: byte, b: byte)
    ensures Add(a, b) == Add(b, a)
  {}

  lemma AddAssociates(a: byte, b: byte, c: byte)
    ensures Add(Add(a, b), c) == Add(a, Add(b, c))
  {}

  lemma AddSwap(a: byte, b: byte, c: byte, d: byte)
    ensures Add(Add(a, b), Add(c, d)) == Add(Add(a, c), Add(b, d))
  {
    hide Add;
    AddAssociates(a, b, Add(c, d));
    AddAssociates(b, c, d);
    AddCommutes(b, c);
    AddAssociates(c, b, d);
    AddAssociates(a, c, Add(b, d));
  }

  lemma AddZeroOnlyIfEqual(a: byte, b: byte)
    ensures Add(a, b) == 0 <==> a == b
  {}

  // ---- one step of the multiplication is linear ----

  lemma XtimeAdd(a: byte, c: byte)
    ensures Xtime(Add(a, c)) == Add(Xtime(a), Xtime(c))
  {}

  lemma TermCases(a: byte, b: byte)
    ensures (b & 1 == 1 && Term(a, b) == a) || (b & 1 == 0 && Term(a, b) == 0)
  {}

  lemma TermAdd(a: byte, c: byte, b: byte)
    ensures Term(Add(a, c), b) == Add(Term(a, b), Term(c, b))
  {
    TermCases(a, b);
    TermCases(c, b);
    TermCases(Add(a, c), b);
    AddZero(0);
    hide Term;
  }

  lemma XtimeTerm(a: byte, b: byte)
    ensures Xtime(Term(a, b)) == Term(Xtime(a), b)
  {}

  // ---- multiplication ----

  lemma MulStep(a: byte, b: byte, n: nat)
    requires n > 0
    ensures MulSteps(a, b, n) == Add(Term(a, b), MulSteps(Xtime(a), Half(b), n - 1))
  {}

  lemma MulAllSteps(a: byte, b: byte)
    ensures MulSteps(a, b, 8) == Mul(a, b)
  {}

  lemma MulNoSteps(a: byte, b: byte)
    ensures MulSteps(a, b, 0) == 0
  {}

  lemma {:induction false} MulStepsAdd(a: byte, c: byte, b: byte, n: nat)
    ensures MulSteps(Add(a, c), b, n) == Add(MulSteps(a, b, n), MulSteps(c, b, n))
    decreases n, b
  {
    AddZero(0);
    hide Add, Xtime, Term, Half;
    if n > 0 {
      XtimeAdd(a, c);
      TermAdd(a, c, b);
      MulStepsAdd(Xtime(a), Xtime(c), Half(b), n - 1);
      AddSwap(Term(a, b), Term(c, b), MulSteps(Xtime(a), Half(b), n - 1), MulSteps(Xtime(c), Half(b), n - 1));
    }
  }

  lemma {:induction false} MulStepsXtime(a: byte, b: byte, n: nat)
    ensures MulSteps(Xtime(a), b, n) == Xtime(MulSteps(a, b, n))
    decreases n, b
  {
    assert Xtime(0) == 0;
    hide Add, Xtime, Term, Half;
    if n > 0 {
      MulStepsXtime(Xtime(a), Half(b), n - 1);
      XtimeTerm(a, b);
      XtimeAdd(Term(a, b), MulSteps(Xtime(a), Half(b), n - 1));
    }
  }

  lemma {:induction false} MulStepsZero(b: byte, n: nat)
    ensures MulSteps(0, b, n) == 0
    decreases n, b
  {
    if n > 0 {
      assert Xtime(0) == 0 && Term(0, b) == 0;
      hide Xtime, Term, Half;
      MulStepsZero(Half(b), n - 1);
      AddZero(0);
    }
  }

  lemma {:induction false} MulStepsMul(a: byte, b: byte, c: byte, n: nat)
    ensures Mul(MulSteps(a, b, n), c) == MulSteps(Mul(a, c), b, n)
    decreases n, b
  {
    hide Add, Xtime, Half;
    MulStepsZero(c, 8);
    if n > 0 {
      var rest := MulSteps(Xtime(a), Half(b), n - 1);
      MulStepsAdd(Term(a, b), rest, c, 8);
      MulStepsMul(Xtime(a), Half(b), c, n - 1);
      MulStepsXtime(a, c, 8);
      TermCases(a, b);
      TermCases(Mul(a, c), b);
      hide Term;
    }
  }

  /** The eight unrolled steps of the multiplication. */
  lemma Unrolled(a: byte, b: byte)
    ensures var x1 := Xtime(a); var x2 := Xtime(x1); var x3 := Xtime(x2); var x4 := Xtime(x3);
            var x5 := Xtime(x4); var x6 := Xtime(x5); var x7 := Xtime(x6);
            var b1 := Half(b); var b2 := Half(b1); var b3 := Half(b2); var b4 := Half(b3);
            var b5 := Half(b4); var b6 := Half(b5); var b7 := Half(b6);
            Mul(a, b) == Add(Term(a, b), Add(Term(x1, b1), Add(Term(x2, b2), Add(Term(x3, b3),
              Add(Term(x4, b4), Add(Term(x5, b5), Add(Term(x6, b6), Add(Term(x7, b7), 0))))))))
  {
    hide Add, Xtime, Half, Term;
    var x1 := Xtime(a); var x2 := Xtime(x1); var x3 := Xtime(x2); var x4 := Xtime(x3);
    var x5 := Xtime(x4); var x6 := Xtime(x5); var x7 := Xtime(x6);
    var b1 := Half(b); var b2 := Half(b1); var b3 := Half(b2); var b4 := Half(b3);
    var b5 := Half(b4); var b6 := Half(b5); var b7 := Half(b6);
    MulStep(a, b, 8); MulStep(x1, b1, 7); MulStep(x2, b2, 6); MulStep(x3, b3, 5);
    MulStep(x4, b4, 4); MulStep(x5, b5, 3); MulStep(x6, b6, 2); MulStep(x7, b7, 1);
  }

  lemma One(b: byte)
    ensures Mul(1, b) == b && Mul(b, 1) == b
  {
    Unrolled(1, b);
    Unrolled(b, 1);
  }

  lemma Commutes(a: byte, b: byte)
    ensures Mul(a, b) == Mul(b, a)
  {
    hide MulSteps;
    One(a);
    One(b);
    MulStepsMul(1, a, b, 8);
  }

  lemma Associates(a: byte, b: byte, c: byte)
    ensures Mul(Mul(a, b), c) == Mul(a, Mul(b, c))
  {
    hide MulSteps;
    Commutes(a, b);
    MulStepsMul(b, a, c, 8);
    Commutes(Mul(b, c), a);
  }

  lemma Distributes(a: byte, b: byte, c: byte)
    ensures Mul(Add(a, b), c) == Add(Mul(a, c), Mul(b, c))
    ensures Mul(c, Add(a, b)) == Add(Mul(c, a), Mul(c, b))
  {
    hide MulSteps, Add;
    MulStepsAdd(a, b, c, 8);
    Commutes(c, Add(a, b));
    Commutes(c, a);
    Commutes(c, b);
  }

  lemma Zero(a: byte)
    ensures Mul(0, a) == 0 && Mul(a, 0) == 0
  {
    MulStepsZero(a, 8);
    Commutes(0, a);
  }

  // ---- powers and inverses ----

  lemma {:induction false} PowAdd(a: byte, m: nat, n: nat)
    ensures Pow(a, m + n) == Mul(Pow(a, m), Pow(a, n))
  {
    hide Mul;
    if m == 0 {
      One(Pow(a, n));
    } else {
      PowAdd(a, m - 1, n);
      Associates(a, Pow(a, m - 1), Pow(a, n));
    }
  }

  /** Squaring is linear, so on the bits of `a` it is one xor of constants. */
  function Spread(a: byte): byte {
    (a & 1) ^ ((a & 2) << 1) ^ ((a & 4) << 2) ^ ((a & 8) << 3)
    ^ (0x1b & (0 - ((a >> 4) & 1))) ^ (0x6c & (0 - ((a >> 5) & 1)))
    ^ (0xab & (0 - ((a >> 6) & 1))) ^ (0x9a & (0 - (a >> 7)))
  }

  lemma SquareIsSpread(a: byte)
    ensures Mul(a, a) == Spread(a)
  {
    Unrolled(a, a);
    hide MulSteps;
  }

  lemma SpreadEightTimes(a: byte)
    ensures Spread(Spread(Spread(Spread(Spread(Spread(Spread(Spread(a)))))))) == a
  {}

  lemma SpreadFixedPoints(a: byte)
    requires Spread(a) == a
    ensures a == 0 || a == 1
  {}

  lemma PowDouble(a: byte, n: nat)
    ensures Pow(a, 2 * n) == Spread(Pow(a, n))
  {
    PowAdd(a, n, n);
    SquareIsSpread(Pow(a, n));
  }

  /** Every element is its own 256th power. */
  lemma FermatField(a: byte)
    ensures Pow(a, 256) == a
  {
    hide Mul, Spread;
    One(a);
    assert Pow(a, 1) == Mul(a, Pow(a, 0));
    PowDouble(a, 1); PowDouble(a, 2); PowDouble(a, 4); PowDouble(a, 8);
    PowDouble(a, 16); PowDouble(a, 32); PowDouble(a, 64); PowDouble(a, 128);
    SpreadEightTimes(a);
  }

  lemma InverseLaw(a: byte)
    requires a != 0
    ensures Mul(a, Inv(a)) == 1 && Mul(Inv(a), a) == 1
  {
    hide Mul, Spread;
    var e := Pow(a, 255);
    assert e == Mul(a, Inv(a));
    FermatField(a);
    assert Pow(a, 256) == Mul(a, e);
    PowAdd(a, 255, 255);
    PowAdd(a, 256, 254);
    assert Mul(e, e) == e;
    SquareIsSpread(e);
    SpreadFixedPoints(e);
    Zero(a);
    Commutes(a, Inv(a));
  }

  lemma OrderLaw(a: byte)
    requires a != 0
    ensures Pow(a, 255) == 1
  {
    hide Mul;
    assert Pow(a, 255) == Mul(a, Inv(a));
    InverseLaw(a);
  }

  lemma NoZeroDivisors(a: byte, b: byte)
    ensures Mul(a, b) == 0 <==> a == 0 || b == 0
  {
    hide Mul, Inv;
    Zero(a);
    Zero(b);
    if a != 0 && Mul(a, b) == 0 {
      Associates(Inv(a), a, b);
      InverseLaw(a);
      One(b);
      Zero(Inv(a));
    }
  }
}

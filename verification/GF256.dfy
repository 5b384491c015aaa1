/**
 * The class GF256 of src/crypto/FiniteField.ts: loops over 32-bit operands,
 * of which only the low byte counts.
 */
module GF256 {
  import opened Field
  import opened PowerOrder
  import opened Wrappers

  /** A number as JavaScript's bitwise operators see it. */
  type number = bv32

  datatype FieldError = ZeroHasNoInverse | DivisionByZero

  function Low(a: number): byte { (a & 0xff) as byte }

  lemma LowOfByte(a: byte)
    ensures Low(a as number) == a
  {}

  /** `a` if the low bit of `b` is set, otherwise 0 */
  function Masked(a: number, b: number): number { a & ((0 - (b & 1)) & 0xff) }

  function Doubled(a: number): number { ((a << 1) & 0xff) ^ (0x1b & ((0 - ((a >> 7) & 1)) & 0xff)) }

  function Shifted(b: number): number { b >> 1 }

  function Sum(a: number, b: number): number { a ^ b }

  lemma LowOfSum(a: number, b: number)
    ensures Low(Sum(a, b)) == Add(Low(a), Low(b))
  {}

  lemma LowOfMasked(a: number, b: number)
    ensures Low(Masked(a, b)) == Term(Low(a), Low(b))
  {}

  lemma LowOfShifted(b: number)
    requires b <= 0xff
    ensures Shifted(b) <= 0xff && Low(Shifted(b)) == Half(Low(b))
  {}

  lemma LowOfDoubled(a: number)
    requires a <= 0xff
    ensures Doubled(a) <= 0xff && Low(Doubled(a)) == Xtime(Low(a))
  {}

  lemma LowOfAnd(x: number)
    ensures x & 0xff <= 0xff && Low(x & 0xff) == Low(x)
  {}

  lemma {:induction false} LoopStep(p: number, a: number, b: number, n: nat)
    requires a <= 0xff && b <= 0xff && n > 0
    ensures Doubled(a) <= 0xff && Shifted(b) <= 0xff
    ensures Add(Low(Sum(p, Masked(a, b))), MulSteps(Low(Doubled(a)), Low(Shifted(b)), n - 1))
         == Add(Low(p), MulSteps(Low(a), Low(b), n))
  {
    hide *;
    MulStep(Low(a), Low(b), n);
    AddAssociates(Low(p), Term(Low(a), Low(b)), MulSteps(Xtime(Low(a)), Half(Low(b)), n - 1));
    LowOfMasked(a, b);
    LowOfShifted(b);
    LowOfDoubled(a);
    LowOfSum(p, Masked(a, b));
  }

  /** lines 56-71 */
  method Multiply(x: number, y: number) returns (r: byte)
    ensures r == Mul(Low(x), Low(y))
  {
    hide *;
    LowOfAnd(x);
    LowOfAnd(y);
    LowOfByte(0);
    AddZero(Mul(Low(x), Low(y)));
    MulAllSteps(Low(x), Low(y));
    var a, b, p: number := x & 0xff, y & 0xff, 0;
    for i := 0 to 8
      invariant a <= 0xff && b <= 0xff
      invariant Add(Low(p), MulSteps(Low(a), Low(b), 8 - i)) == Mul(Low(x), Low(y))
    {
      LoopStep(p, a, b, 8 - i);
      ghost var a0, b0, p0 := a, b, p;
      var addMask := (0 - (b & 1)) & 0xff;
      p := p ^ (a & addMask);
      var hi := (a >> 7) & 1;
      a := (a << 1) & 0xff;
      a := a ^ (0x1b & ((0 - hi) & 0xff));
      b := b >> 1;
      LoopValues(p0, a0, b0);
    }
    MulNoSteps(Low(a), Low(b));
    AddZero(Low(p));
    r := Low(p);
  }

  lemma LoopValues(p: number, a: number, b: number)
    ensures p ^ (a & ((0 - (b & 1)) & 0xff)) == Sum(p, Masked(a, b))
    ensures ((a << 1) & 0xff) ^ (0x1b & ((0 - ((a >> 7) & 1)) & 0xff)) == Doubled(a)
    ensures b >> 1 == Shifted(b)
  {}

  /** Square-and-multiply: doubling the base halves the exponent. */
  lemma {:induction false} PowOfSquare(a: byte, n: nat)
    ensures Pow(Mul(a, a), n) == Pow(a, 2 * n)
  {
    hide Mul;
    if n > 0 {
      PowOfSquare(a, n - 1);
      Associates(a, a, Pow(a, 2 * n - 2));
    }
  }

  lemma PowerStep(result: byte, base: byte, e: nat)
    ensures e % 2 == 1 ==> Mul(Mul(result, base), Pow(Mul(base, base), e / 2)) == Mul(result, Pow(base, e))
    ensures e % 2 == 0 ==> Mul(result, Pow(Mul(base, base), e / 2)) == Mul(result, Pow(base, e))
  {
    hide Mul;
    PowOfSquare(base, e / 2);
    Associates(result, base, Pow(base, 2 * (e / 2)));
  }

  /** lines 79-94 */
  method Inverse(x: number) returns (r: Result<byte, FieldError>)
    ensures r.Failure? <==> Low(x) == 0
    ensures r.Failure? ==> r.error == ZeroHasNoInverse
    ensures r.Success? ==> r.value == Inv(Low(x)) && Mul(Low(x), r.value) == 1
  {
    hide *;
    var a := Low(x);
    if a == 0 {
      return Failure(ZeroHasNoInverse);
    }
    var result, base, e := 1 as byte, a, 254;
    One(Pow(a, 254));
    while e > 0
      invariant e >= 0
      invariant Mul(result, Pow(base, e)) == Pow(a, 254)
    {
      PowerStep(result, base, e);
      LowOfByte(result);
      LowOfByte(base);
      if e % 2 == 1 {
        result := Multiply(result as number, base as number);
      }
      base := Multiply(base as number, base as number);
      e := e / 2;
    }
    PowZero(base);
    One(result);
    InverseLaw(a);
    InvIsPow(a);
    return Success(result);
  }

  lemma PowZero(a: byte)
    ensures Pow(a, 0) == 1
  {}

  lemma InvIsPow(a: byte)
    ensures Inv(a) == Pow(a, 254)
  {}

  function Div(a: byte, b: byte): byte { Mul(a, Inv(b)) }

  /** lines 99-107 */
  method Divide(a: number, b: number) returns (r: Result<byte, FieldError>)
    ensures r.Failure? <==> Low(b) == 0
    ensures r.Failure? ==> r.error == DivisionByZero
    ensures r.Success? ==> r.value == Div(Low(a), Low(b)) && Mul(r.value, Low(b)) == Low(a)
  {
    hide *;
    if b & 0xff == 0 {
      LowIsZero(b);
      return Failure(DivisionByZero);
    }
    LowIsZero(a);
    LowIsZero(b);
    DivLaw(Low(a), Low(b));
    if a & 0xff == 0 {
      return Success(0);
    }
    var inverse := Inverse(b);
    LowOfByte(inverse.value);
    var q := Multiply(a, inverse.value as number);
    return Success(q);
  }

  lemma LowIsZero(a: number)
    ensures a & 0xff == 0 <==> Low(a) == 0
  {}

  lemma DivLaw(a: byte, b: byte)
    requires b != 0
    ensures Div(a, b) == Mul(a, Inv(b))
    ensures Mul(Div(a, b), b) == a
    ensures Div(0, b) == 0
  {
    hide Mul, Inv;
    Associates(a, Inv(b), b);
    InverseLaw(b);
    One(a);
    Zero(Inv(b));
  }

  /** The 32-bit signed value of an integer, as `>>=` takes it. */
  function Int32(n: int): int {
    if n % 0x1_0000_0000 < 0x8000_0000 then n % 0x1_0000_0000 else n % 0x1_0000_0000 - 0x1_0000_0000
  }

  /**
   * The exponent the loop really raises to: the first round reads the low bit of
   * `exp` itself, the later ones read what is left after a 32-bit signed shift.
   */
  function EffectiveExponent(exp: int): (n: nat)
    ensures n == exp <==> 0 <= exp < 0x8000_0000
  {
    if exp <= 0 then 0
    else exp % 2 + 2 * (if Int32(exp) > 0 then Int32(exp) / 2 else 0)
  }

  lemma EffectiveStep(e: int)
    requires e > 0
    ensures EffectiveExponent(e) % 2 == e % 2
    ensures EffectiveExponent(Int32(e) / 2) == EffectiveExponent(e) / 2
    ensures Int32(e) / 2 < e
  {}

  /** lines 112-128 */
  method Power(x: number, exp: int) returns (r: byte)
    ensures exp == 0 ==> r == 1
    ensures exp != 0 && Low(x) == 0 ==> r == 0
    ensures Low(x) != 0 ==> r == Pow(Low(x), EffectiveExponent(exp))
  {
    hide *;
    PowZero(Low(x));
    EffectiveOfNonPositive(exp);
    if exp == 0 {
      return 1;
    }
    LowIsZero(x);
    if x & 0xff == 0 {
      return 0;
    }
    var result, base, e := 1 as byte, Low(x), exp;
    One(Pow(base, EffectiveExponent(e)));
    while e > 0
      invariant Mul(result, Pow(base, EffectiveExponent(e))) == Pow(Low(x), EffectiveExponent(exp))
      decreases e
    {
      EffectiveStep(e);
      PowerStep(result, base, EffectiveExponent(e));
      LowOfByte(result);
      LowOfByte(base);
      if e % 2 == 1 {
        result := Multiply(result as number, base as number);
      }
      base := Multiply(base as number, base as number);
      e := Int32(e) / 2;
    }
    EffectiveOfNonPositive(e);
    PowZero(base);
    One(result);
    return result;
  }

  /** The loop raises every nonzero element rightly exactly when the exponent used agrees with `exp` modulo 255. */
  lemma PowerIsRightIff(exp: nat)
    ensures SamePowers(EffectiveExponent(exp), exp) <==> EffectiveExponent(exp) % 255 == exp % 255
  {
    SamePowersIff(EffectiveExponent(exp), exp);
  }

  /** At 2^31 it does not: 2 to that power comes out as 1. */
  lemma PowerBeyondRange(exp: nat)
    requires exp == 0x8000_0000
    ensures EffectiveExponent(exp) == 0
    ensures Pow(2, EffectiveExponent(exp)) != Pow(2, exp)
  {
    PowZero(2);
    SpreadOne();
    hide Pow, Spread;
    PowModulo(2, exp);
    PowDouble(2, 0x80);
    FermatField(2);
  }

  lemma SpreadOne()
    ensures Spread(1) == 1
  {}

  lemma EffectiveOfNonPositive(e: int)
    ensures e <= 0 ==> EffectiveExponent(e) == 0
  {}
}

/**
 * What the field's multiplication means: the product of two polynomials over
 * GF(2), reduced modulo x^8 + x^4 + x^3 + x + 1 (section 4.2 of FIPS 197).
 */
module PolynomialProduct {
  import opened Field

  /** Coefficients of a polynomial of degree at most 15; bit i belongs to x^i. */
  type coefficients = bv16

  function Xor(p: coefficients, q: coefficients): coefficients { p ^ q }

  function Times(p: coefficients): coefficients { p << 1 }

  function Chosen(p: coefficients, b: byte): coefficients { if b & 1 == 1 then p else 0 }

  /** The product without reduction: the sum of b_i * x^i * p over the `n` low bits of `b`. */
  function Product(p: coefficients, b: byte, n: nat): coefficients
    decreases n, b
  {
    if n == 0 then 0 else Xor(Chosen(p, b), Product(Times(p), Half(b), n - 1))
  }

  /** Subtract `multiple` when its leading term, the bit `top`, occurs. */
  function Cancel(p: coefficients, top: coefficients, multiple: coefficients): coefficients {
    if p & top != 0 then p ^ multiple else p
  }

  /** The modulus times x^k, for k from 6 down to 0, is subtracted where its leading term occurs. */
  function CancelDown(p: coefficients): coefficients {
    Cancel(Cancel(Cancel(Cancel(Cancel(Cancel(Cancel(p,
      0x4000, 0x46c0), 0x2000, 0x2360), 0x1000, 0x11b0), 0x0800, 0x08d8), 0x0400, 0x046c), 0x0200, 0x0236), 0x0100, 0x011b)
  }

  function Low(p: coefficients): byte { (p & 0xff) as byte }

  /** The remainder of a polynomial of degree at most 14. */
  function Remainder(p: coefficients): byte { Low(CancelDown(p)) }

  // ---- the remainder is linear ----

  lemma XorAssociates(p: coefficients, q: coefficients, m: coefficients)
    ensures Xor(Xor(p, q), m) == Xor(p, Xor(q, m))
  {}

  lemma XorCommutes(p: coefficients, q: coefficients)
    ensures Xor(p, q) == Xor(q, p)
  {}

  lemma XorTwice(p: coefficients, m: coefficients)
    ensures Xor(Xor(p, m), m) == p
  {}

  lemma XorLaws(p: coefficients, q: coefficients, m: coefficients)
    ensures Xor(Xor(p, m), Xor(q, m)) == Xor(p, q)
    ensures Xor(Xor(p, m), q) == Xor(Xor(p, q), m)
    ensures Xor(p, Xor(q, m)) == Xor(Xor(p, q), m)
  {
    hide *;
    XorAssociates(p, q, m);
    XorAssociates(p, m, q);
    XorCommutes(m, q);
    XorAssociates(Xor(p, m), q, m);
    XorTwice(Xor(p, q), m);
  }

  predicate Has(p: coefficients, top: coefficients) { p & top != 0 }

  predicate IsBit(top: coefficients) {
    top == 0x4000 || top == 0x2000 || top == 0x1000 || top == 0x0800 || top == 0x0400 || top == 0x0200 || top == 0x0100
  }

  lemma HasXor(p: coefficients, q: coefficients, top: coefficients)
    requires IsBit(top)
    ensures Has(Xor(p, q), top) == (Has(p, top) != Has(q, top))
  {
    if top == 0x4000 {} else if top == 0x2000 {} else if top == 0x1000 {} else if top == 0x0800 {}
    else if top == 0x0400 {} else if top == 0x0200 {} else {}
  }

  lemma CancelCases(p: coefficients, top: coefficients, m: coefficients)
    ensures Cancel(p, top, m) == if Has(p, top) then Xor(p, m) else p
  {}

  lemma CancelXor(p: coefficients, q: coefficients, top: coefficients, m: coefficients)
    requires IsBit(top)
    ensures Cancel(Xor(p, q), top, m) == Xor(Cancel(p, top, m), Cancel(q, top, m))
  {
    hide *;
    HasXor(p, q, top);
    XorLaws(p, q, m);
    CancelCases(p, top, m);
    CancelCases(q, top, m);
    CancelCases(Xor(p, q), top, m);
  }

  lemma CancelDownXor(p: coefficients, q: coefficients)
    ensures CancelDown(Xor(p, q)) == Xor(CancelDown(p), CancelDown(q))
  {
    hide Cancel, Xor;
    CancelXor(p, q, 0x4000, 0x46c0);
    var p1, q1 := Cancel(p, 0x4000, 0x46c0), Cancel(q, 0x4000, 0x46c0);
    CancelXor(p1, q1, 0x2000, 0x2360);
    var p2, q2 := Cancel(p1, 0x2000, 0x2360), Cancel(q1, 0x2000, 0x2360);
    CancelXor(p2, q2, 0x1000, 0x11b0);
    var p3, q3 := Cancel(p2, 0x1000, 0x11b0), Cancel(q2, 0x1000, 0x11b0);
    CancelXor(p3, q3, 0x0800, 0x08d8);
    var p4, q4 := Cancel(p3, 0x0800, 0x08d8), Cancel(q3, 0x0800, 0x08d8);
    CancelXor(p4, q4, 0x0400, 0x046c);
    var p5, q5 := Cancel(p4, 0x0400, 0x046c), Cancel(q4, 0x0400, 0x046c);
    CancelXor(p5, q5, 0x0200, 0x0236);
    var p6, q6 := Cancel(p5, 0x0200, 0x0236), Cancel(q5, 0x0200, 0x0236);
    CancelXor(p6, q6, 0x0100, 0x011b);
  }

  lemma LowXor(p: coefficients, q: coefficients)
    ensures Low(Xor(p, q)) == Add(Low(p), Low(q))
  {}

  lemma RemainderXor(p: coefficients, q: coefficients)
    ensures Remainder(Xor(p, q)) == Add(Remainder(p), Remainder(q))
  {
    hide CancelDown, Xor, Add, Low;
    CancelDownXor(p, q);
    LowXor(CancelDown(p), CancelDown(q));
  }

  // ---- and it turns multiplication by x into Xtime ----

  lemma HasTimes(p: coefficients)
    ensures Has(Times(p), 0x4000) == Has(p, 0x2000)
    ensures Has(Times(p), 0x2000) == Has(p, 0x1000)
    ensures Has(Times(p), 0x1000) == Has(p, 0x0800)
    ensures Has(Times(p), 0x0800) == Has(p, 0x0400)
    ensures Has(Times(p), 0x0400) == Has(p, 0x0200)
    ensures Has(Times(p), 0x0200) == Has(p, 0x0100)
  {}

  lemma TimesXor(p: coefficients, m: coefficients)
    ensures Times(Xor(p, m)) == Xor(Times(p), Times(m))
  {}

  lemma TimesOfMultiples()
    ensures Times(0x2360) == 0x46c0 && Times(0x11b0) == 0x2360 && Times(0x08d8) == 0x11b0
    ensures Times(0x046c) == 0x08d8 && Times(0x0236) == 0x046c && Times(0x011b) == 0x0236
  {}

  lemma CancelTimesCases(p: coefficients, top: coefficients, m: coefficients, up: coefficients)
    requires Has(Times(p), up) == Has(p, top)
    ensures Cancel(Times(p), up, Times(m)) == Times(Cancel(p, top, m))
  {
    hide *;
    CancelCases(p, top, m);
    CancelCases(Times(p), up, Times(m));
    TimesXor(p, m);
  }

  /** Cancelling one degree higher what was multiplied by x is cancelling first. */
  lemma CancelTimes(p: coefficients)
    ensures Cancel(Times(p), 0x4000, 0x46c0) == Times(Cancel(p, 0x2000, 0x2360))
    ensures Cancel(Times(p), 0x2000, 0x2360) == Times(Cancel(p, 0x1000, 0x11b0))
    ensures Cancel(Times(p), 0x1000, 0x11b0) == Times(Cancel(p, 0x0800, 0x08d8))
    ensures Cancel(Times(p), 0x0800, 0x08d8) == Times(Cancel(p, 0x0400, 0x046c))
    ensures Cancel(Times(p), 0x0400, 0x046c) == Times(Cancel(p, 0x0200, 0x0236))
    ensures Cancel(Times(p), 0x0200, 0x0236) == Times(Cancel(p, 0x0100, 0x011b))
  {
    hide *;
    HasTimes(p);
    TimesOfMultiples();
    CancelTimesCases(p, 0x2000, 0x2360, 0x4000);
    CancelTimesCases(p, 0x1000, 0x11b0, 0x2000);
    CancelTimesCases(p, 0x0800, 0x08d8, 0x1000);
    CancelTimesCases(p, 0x0400, 0x046c, 0x0800);
    CancelTimesCases(p, 0x0200, 0x0236, 0x0400);
    CancelTimesCases(p, 0x0100, 0x011b, 0x0200);
  }

  lemma CancelKeeps(p: coefficients)
    ensures p < 0x4000 ==> Cancel(p, 0x4000, 0x46c0) == p
    ensures p < 0x4000 ==> Cancel(p, 0x2000, 0x2360) < 0x2000
    ensures p < 0x2000 ==> Cancel(p, 0x1000, 0x11b0) < 0x1000
    ensures p < 0x1000 ==> Cancel(p, 0x0800, 0x08d8) < 0x0800
    ensures p < 0x0800 ==> Cancel(p, 0x0400, 0x046c) < 0x0400
    ensures p < 0x0400 ==> Cancel(p, 0x0200, 0x0236) < 0x0200
    ensures p < 0x0200 ==> Cancel(p, 0x0100, 0x011b) < 0x0100
  {}

  lemma LastStep(r: coefficients)
    requires r < 0x100
    ensures Low(Cancel(Times(r), 0x0100, 0x011b)) == Xtime(Low(r))
  {}

  lemma RemainderTimes(p: coefficients)
    requires p < 0x4000
    ensures Remainder(Times(p)) == Xtime(Remainder(p))
  {
    hide Cancel, Times, Low, Xtime;
    CancelKeeps(p);
    CancelTimes(p);
    var p1 := Cancel(p, 0x2000, 0x2360);
    CancelTimes(p1);
    CancelKeeps(p1);
    var p2 := Cancel(p1, 0x1000, 0x11b0);
    CancelTimes(p2);
    CancelKeeps(p2);
    var p3 := Cancel(p2, 0x0800, 0x08d8);
    CancelTimes(p3);
    CancelKeeps(p3);
    var p4 := Cancel(p3, 0x0400, 0x046c);
    CancelTimes(p4);
    CancelKeeps(p4);
    var p5 := Cancel(p4, 0x0200, 0x0236);
    CancelTimes(p5);
    CancelKeeps(p5);
    LastStep(Cancel(p5, 0x0100, 0x011b));
  }

  lemma RemainderSmall(p: coefficients)
    requires p < 0x100
    ensures Remainder(p) == Low(p)
  {}

  lemma RemainderChosen(p: coefficients, b: byte)
    ensures Remainder(Chosen(p, b)) == Term(Remainder(p), b)
  {
    TermCases(Remainder(p), b);
    RemainderSmall(0);
    hide Remainder, Term;
  }

  /** Polynomials that still fit in 15 bits after `n` - 1 multiplications by x. */
  predicate Fits(p: coefficients, n: nat) {
    match n
    case 8 => p < 0x0100
    case 7 => p < 0x0200
    case 6 => p < 0x0400
    case 5 => p < 0x0800
    case 4 => p < 0x1000
    case 3 => p < 0x2000
    case 2 => p < 0x4000
    case _ => n <= 1
  }

  lemma {:induction false} RemainderOfProduct(p: coefficients, b: byte, n: nat)
    requires Fits(p, n)
    ensures Remainder(Product(p, b, n)) == MulSteps(Remainder(p), b, n)
    decreases n
  {
    RemainderSmall(0);
    if n > 0 {
      hide Remainder, Fits, Xor, Add, Term, Chosen, Times, Half, Xtime;
      RemainderOfProduct(Times(p), Half(b), n - 1);
      RemainderXor(Chosen(p, b), Product(Times(p), Half(b), n - 1));
      RemainderChosen(p, b);
      MulStep(Remainder(p), b, n);
      if n > 1 {
        RemainderTimes(p);
      } else {
        MulNoSteps(Remainder(Times(p)), Half(b));
        MulNoSteps(Xtime(Remainder(p)), Half(b));
      }
    }
  }

  /** The field's product is the remainder of the polynomial product. */
  lemma MulIsPolynomialProduct(a: byte, b: byte)
    ensures Mul(a, b) == Remainder(Product(a as coefficients, b, 8))
  {
    RemainderSmall(a as coefficients);
    hide Remainder, Low;
    RemainderOfProduct(a as coefficients, b, 8);
  }

}

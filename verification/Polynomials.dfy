/** Polynomials over the field, as coefficient lists, low order first. */
module Polynomials {
  import opened Field

  type poly = seq<byte>

  function Eval(p: poly, x: byte): byte {
    if p == [] then 0 else Add(p[0], Mul(x, Eval(p[1..], x)))
  }

  ghost predicate IsZero(p: poly) { forall i :: 0 <= i < |p| ==> p[i] == 0 }

  ghost predicate Distinct(xs: seq<byte>) { forall i, j :: 0 <= i < j < |xs| ==> xs[i] != xs[j] }

  /** `p` takes the values `ys` at the points `xs`. */
  ghost predicate Through(p: poly, xs: seq<byte>, ys: seq<byte>)
    requires |xs| == |ys|
  {
    forall i :: 0 <= i < |xs| ==> Eval(p, xs[i]) == ys[i]
  }

  // ---- at most one polynomial of degree below |xs| goes through given points ----

  /** The quotient of `p` by X - a. */
  function Quotient(p: poly, a: byte): (q: poly)
    ensures |q| == if p == [] then 0 else |p| - 1
  {
    if |p| <= 1 then [] else [Eval(p[1..], a)] + Quotient(p[1..], a)
  }

  lemma {:induction false} DivisionLaw(p: poly, a: byte, x: byte)
    ensures Eval(p, x) == Add(Eval(p, a), Mul(Add(x, a), Eval(Quotient(p, a), x)))
  {
    hide Add, Mul;
    Zero(x);
    Zero(a);
    Zero(Add(x, a));
    if |p| == 0 {
      AddZero(0);
    } else if |p| == 1 {
      AddZero(p[0]);
      AddZero(Eval(p, a));
    } else {
      var rest, q := p[1..], Quotient(p[1..], a);
      var r := Eval(rest, a);
      DivisionLaw(rest, a, x);
      assert Quotient(p, a) == [r] + q && ([r] + q)[1..] == q;
      var s := Eval(q, x);
      assert Eval(Quotient(p, a), x) == Add(r, Mul(x, s));
      DivisionStep(p[0], x, a, r, s);
    }
  }

  /** c + x(r + (x+a)s) = (c + ar) + (x+a)(r + xs) */
  lemma DivisionStep(c: byte, x: byte, a: byte, r: byte, s: byte)
    ensures Add(c, Mul(x, Add(r, Mul(Add(x, a), s))))
         == Add(Add(c, Mul(a, r)), Mul(Add(x, a), Add(r, Mul(x, s))))
  {
    hide Add, Mul;
    var d := Add(x, a);
    var xds := Mul(x, Mul(d, s));
    Distributes(r, Mul(d, s), x);
    Distributes(r, Mul(x, s), d);
    Distributes(x, a, r);
    assert Mul(d, Mul(x, s)) == xds by {
      Associates(d, x, s);
      Commutes(d, x);
      Associates(x, d, s);
    }
    var xr, ar := Mul(x, r), Mul(a, r);
    AddAssociates(c, ar, Add(Add(xr, ar), xds));
    AddAssociates(ar, Add(xr, ar), xds);
    AddCommutes(xr, ar);
    AddAssociates(ar, ar, xr);
    AddZero(ar);
    AddZero(xr);
  }

  lemma {:induction false} QuotientZero(p: poly, a: byte)
    requires Eval(p, a) == 0 && IsZero(Quotient(p, a))
    ensures IsZero(p)
  {
    hide Add, Mul;
    if |p| == 1 {
      Zero(a);
      AddZero(p[0]);
    } else if |p| > 1 {
      var q := Quotient(p, a);
      assert q[0] == Eval(p[1..], a);
      assert q[1..] == Quotient(p[1..], a);
      assert forall i :: 0 <= i < |q| - 1 ==> q[1..][i] == q[i + 1];
      QuotientZero(p[1..], a);
      Zero(a);
      AddZero(p[0]);
      assert forall i :: 1 <= i < |p| ==> p[i] == p[1..][i - 1];
    }
  }

  /** A polynomial with as many roots as coefficients is zero. */
  lemma {:induction false} TooManyRoots(p: poly, roots: seq<byte>)
    requires |roots| >= |p| && Distinct(roots)
    requires forall i :: 0 <= i < |roots| ==> Eval(p, roots[i]) == 0
    ensures IsZero(p)
    decreases |p|
  {
    hide Add, Mul;
    if p != [] {
      var a, rest, q := roots[0], roots[1..], Quotient(p, roots[0]);
      forall i | 0 <= i < |rest| ensures Eval(q, rest[i]) == 0 {
        var x := roots[i + 1];
        DivisionLaw(p, a, x);
        AddZero(Mul(Add(x, a), Eval(q, x)));
        AddZeroOnlyIfEqual(x, a);
        NoZeroDivisors(Add(x, a), Eval(q, x));
      }
      TooManyRoots(q, rest);
      QuotientZero(p, a);
    }
  }

  function Plus(p: poly, q: poly): (r: poly)
    requires |p| == |q|
    ensures |r| == |p| && forall i :: 0 <= i < |p| ==> r[i] == Add(p[i], q[i])
  {
    if p == [] then [] else [Add(p[0], q[0])] + Plus(p[1..], q[1..])
  }

  lemma {:induction false} EvalPlus(p: poly, q: poly, x: byte)
    requires |p| == |q|
    ensures Eval(Plus(p, q), x) == Add(Eval(p, x), Eval(q, x))
  {
    hide Add, Mul;
    if p == [] {
      AddZero(0);
    } else {
      EvalPlus(p[1..], q[1..], x);
      assert Plus(p, q)[1..] == Plus(p[1..], q[1..]);
      Distributes(Eval(p[1..], x), Eval(q[1..], x), x);
      AddSwap(p[0], q[0], Mul(x, Eval(p[1..], x)), Mul(x, Eval(q[1..], x)));
    }
  }

  /** Two polynomials of degree below t that agree on t points are equal. */
  lemma {:induction false} Unique(p: poly, q: poly, xs: seq<byte>)
    requires |p| == |q| <= |xs| && Distinct(xs)
    requires forall i :: 0 <= i < |xs| ==> Eval(p, xs[i]) == Eval(q, xs[i])
    ensures p == q
  {
    var d := Plus(p, q);
    forall i | 0 <= i < |xs| ensures Eval(d, xs[i]) == 0 {
      EvalPlus(p, q, xs[i]);
      AddZero(Eval(p, xs[i]));
    }
    TooManyRoots(d, xs);
    forall i | 0 <= i < |p| ensures p[i] == q[i] {
      AddZeroOnlyIfEqual(p[i], q[i]);
      assert d[i] == 0;
    }
  }

  // ---- Lagrange's interpolation, as a value and as a polynomial ----

  /** The product of x - z over `zs`, in the order the loops multiply. */
  function Product(zs: seq<byte>, x: byte): byte {
    if zs == [] then 1 else Mul(Product(zs[..|zs| - 1], x), Add(x, zs[|zs| - 1]))
  }

  /** The first `j` points without point `i`. */
  function Others(xs: seq<byte>, i: nat, j: nat): seq<byte>
    requires i < |xs| && j <= |xs|
  {
    if j <= i then xs[..j] else xs[..i] + xs[i + 1..j]
  }

  function Basis(xs: seq<byte>, i: nat, x: byte): byte
    requires i < |xs|
  {
    var others := Others(xs, i, |xs|);
    Mul(Product(others, x), Inv(Product(others, xs[i])))
  }

  /** The first `n` summands of Lagrange's formula at `x`. */
  function Lagrange(xs: seq<byte>, ys: seq<byte>, x: byte, n: nat): byte
    requires n <= |xs| == |ys|
  {
    if n == 0 then 0 else Add(Lagrange(xs, ys, x, n - 1), Mul(ys[n - 1], Basis(xs, n - 1, x)))
  }

  lemma {:induction false} ProductZero(zs: seq<byte>, x: byte)
    ensures Product(zs, x) == 0 <==> x in zs
  {
    hide Add, Mul;
    if zs != [] {
      var init, z := zs[..|zs| - 1], zs[|zs| - 1];
      assert zs == init + [z];
      ProductZero(init, x);
      NoZeroDivisors(Product(init, x), Add(x, z));
      AddZeroOnlyIfEqual(x, z);
    }
  }

  lemma BasisAt(xs: seq<byte>, i: nat, k: nat)
    requires i < |xs| && k < |xs| && Distinct(xs)
    ensures Basis(xs, i, xs[k]) == if i == k then 1 else 0
  {
    hide Mul, Inv;
    var others := Others(xs, i, |xs|);
    ProductZero(others, xs[k]);
    if i == k {
      InverseLaw(Product(others, xs[i]));
    } else {
      Zero(Inv(Product(others, xs[i])));
    }
  }

  /** Lagrange's formula takes the given value at each given point. */
  lemma {:induction false} LagrangeAt(xs: seq<byte>, ys: seq<byte>, n: nat, k: nat)
    requires n <= |xs| == |ys| && k < |xs| && Distinct(xs)
    ensures Lagrange(xs, ys, xs[k], n) == if k < n then ys[k] else 0
  {
    hide Add, Mul, Basis;
    if n > 0 {
      LagrangeAt(xs, ys, n - 1, k);
      BasisAt(xs, n - 1, k);
      One(ys[n - 1]);
      Zero(ys[n - 1]);
      AddZero(Lagrange(xs, ys, xs[k], n - 1));
      AddZero(ys[n - 1]);
    }
  }

  function Scale(c: byte, p: poly): (r: poly)
    ensures |r| == |p|
  {
    if p == [] then [] else [Mul(c, p[0])] + Scale(c, p[1..])
  }

  lemma {:induction false} EvalScale(c: byte, p: poly, x: byte)
    ensures Eval(Scale(c, p), x) == Mul(c, Eval(p, x))
  {
    hide Add, Mul;
    Zero(c);
    if p != [] {
      var v := Eval(p[1..], x);
      EvalScale(c, p[1..], x);
      assert Scale(c, p)[1..] == Scale(c, p[1..]);
      Distributes(p[0], Mul(x, v), c);
      Associates(c, x, v);
      Commutes(c, x);
      Associates(x, c, v);
    }
  }

  lemma {:induction false} EvalPad(p: poly, x: byte)
    ensures Eval(p + [0], x) == Eval(p, x)
  {
    hide Add, Mul;
    Zero(x);
    AddZero(0);
    if p == [] {
      assert [0 as byte][1..] == [];
    } else {
      assert (p + [0])[1..] == p[1..] + [0];
      EvalPad(p[1..], x);
    }
  }

  /** (X - a) * p */
  function TimesLinear(p: poly, a: byte): (r: poly)
    ensures |r| == |p| + 1
  {
    Plus([0] + p, Scale(a, p) + [0])
  }

  lemma EvalTimesLinear(p: poly, a: byte, x: byte)
    ensures Eval(TimesLinear(p, a), x) == Mul(Eval(p, x), Add(x, a))
  {
    hide Add, Mul;
    EvalPlus([0] + p, Scale(a, p) + [0], x);
    assert ([0 as byte] + p)[1..] == p;
    AddZero(Mul(x, Eval(p, x)));
    EvalPad(Scale(a, p), x);
    EvalScale(a, p, x);
    Distributes(x, a, Eval(p, x));
    Commutes(Eval(p, x), Add(x, a));
  }

  function ProductPoly(zs: seq<byte>): (r: poly)
    ensures |r| == |zs| + 1
  {
    if zs == [] then [1] else TimesLinear(ProductPoly(zs[..|zs| - 1]), zs[|zs| - 1])
  }

  lemma {:induction false} EvalProductPoly(zs: seq<byte>, x: byte)
    ensures Eval(ProductPoly(zs), x) == Product(zs, x)
  {
    hide Add, Mul;
    if zs == [] {
      assert [1 as byte][1..] == [];
      Zero(x);
      AddZero(1);
    } else {
      EvalProductPoly(zs[..|zs| - 1], x);
      EvalTimesLinear(ProductPoly(zs[..|zs| - 1]), zs[|zs| - 1], x);
    }
  }

  /** Lagrange's formula as a coefficient list. */
  function LagrangePoly(xs: seq<byte>, ys: seq<byte>, n: nat): (p: poly)
    requires n <= |xs| == |ys|
    ensures |p| == |xs|
  {
    if n == 0 then seq(|xs|, i => 0)
    else
      var others := Others(xs, n - 1, |xs|);
      Plus(LagrangePoly(xs, ys, n - 1),
           Scale(ys[n - 1], Scale(Inv(Product(others, xs[n - 1])), ProductPoly(others))))
  }

  lemma {:induction false} EvalZeros(p: poly, x: byte)
    requires IsZero(p)
    ensures Eval(p, x) == 0
  {
    hide Add, Mul;
    if p != [] {
      EvalZeros(p[1..], x);
      Zero(x);
      AddZero(0);
    }
  }

  lemma {:induction false} EvalLagrangePoly(xs: seq<byte>, ys: seq<byte>, n: nat, x: byte)
    requires n <= |xs| == |ys|
    ensures Eval(LagrangePoly(xs, ys, n), x) == Lagrange(xs, ys, x, n)
  {
    hide Add, Mul, Inv, Product, ProductPoly, Eval;
    if n == 0 {
      EvalZeros(LagrangePoly(xs, ys, 0), x);
    } else {
      var others := Others(xs, n - 1, |xs|);
      var inv := Inv(Product(others, xs[n - 1]));
      EvalLagrangePoly(xs, ys, n - 1, x);
      EvalPlus(LagrangePoly(xs, ys, n - 1), Scale(ys[n - 1], Scale(inv, ProductPoly(others))), x);
      EvalScale(ys[n - 1], Scale(inv, ProductPoly(others)), x);
      EvalScale(inv, ProductPoly(others), x);
      EvalProductPoly(others, x);
      Commutes(inv, Product(others, x));
    }
  }

  ghost predicate IsInterpolant(p: poly, xs: seq<byte>, ys: seq<byte>)
    requires |xs| == |ys|
  {
    |p| == |xs| && Through(p, xs, ys)
  }

  /** A polynomial with |xs| coefficients through the given points, if there is one. */
  ghost function Interpolant(xs: seq<byte>, ys: seq<byte>): (p: poly)
    requires |xs| == |ys|
    ensures |p| == |xs|
  {
    if p: poly :| IsInterpolant(p, xs, ys) then p else seq(|xs|, _ => 0)
  }

  /** Through distinct points there is exactly one, and Lagrange's formula is its value everywhere. */
  lemma InterpolantLaw(xs: seq<byte>, ys: seq<byte>)
    requires |xs| == |ys| && Distinct(xs)
    ensures Through(Interpolant(xs, ys), xs, ys)
    ensures forall p: poly :: |p| == |xs| && Through(p, xs, ys) ==> p == Interpolant(xs, ys)
    ensures forall x :: Lagrange(xs, ys, x, |xs|) == Eval(Interpolant(xs, ys), x)
  {
    hide Add, Mul, Eval, Lagrange, LagrangePoly;
    var p := LagrangePoly(xs, ys, |xs|);
    forall k | 0 <= k < |xs| ensures Eval(p, xs[k]) == ys[k] {
      EvalLagrangePoly(xs, ys, |xs|, xs[k]);
      LagrangeAt(xs, ys, |xs|, k);
    }
    assert IsInterpolant(p, xs, ys);
    var f := Interpolant(xs, ys);
    assert IsInterpolant(f, xs, ys);
    forall p: poly | |p| == |xs| && Through(p, xs, ys) ensures p == f {
      Unique(p, f, xs);
    }
    forall x ensures Lagrange(xs, ys, x, |xs|) == Eval(f, x) {
      EvalLagrangePoly(xs, ys, |xs|, x);
    }
  }
}

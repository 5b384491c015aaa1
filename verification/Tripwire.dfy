/**
 * scripts/keyshare-leak-tripwire.js: a second field, interpolator and search,
 * written apart from the SDK. It is proved to compute in the same field, and
 * its search to be exact.
 */
module Tripwire {
  import opened Wrappers
  import opened Field
  import opened Polynomials
  import opened Shamir
  import GF256

  type number = GF256.number

  const MAX_EXPLICIT_SUBSET: nat := 8
  const MAX_BARE_SUBSET: nat := 3
  const MAX_BARE_X: nat := 8

  /** The branching form of one round is the masked one. */
  lemma BranchValues(p: number, a: number, b: number)
    requires a <= 0xff
    ensures (if b & 1 != 0 then p ^ a else p) == GF256.Sum(p, GF256.Masked(a, b))
    ensures (if a & 0x80 != 0 then ((a << 1) & 0xff) ^ 0x1b else (a << 1) & 0xff) == GF256.Doubled(a)
    ensures b >> 1 == GF256.Shifted(b)
  {}

  /** lines 31-43 */
  method GfMul(x: number, y: number) returns (r: byte)
    ensures r == Mul(GF256.Low(x), GF256.Low(y))
  {
    hide *;
    GF256.LowOfAnd(x);
    GF256.LowOfAnd(y);
    GF256.LowOfByte(0);
    AddZero(Mul(GF256.Low(x), GF256.Low(y)));
    MulAllSteps(GF256.Low(x), GF256.Low(y));
    var p, a, b: number := 0, x & 0xff, y & 0xff;
    for i := 0 to 8
      invariant a <= 0xff && b <= 0xff
      invariant Add(GF256.Low(p), MulSteps(GF256.Low(a), GF256.Low(b), 8 - i)) == Mul(GF256.Low(x), GF256.Low(y))
    {
      GF256.LoopStep(p, a, b, 8 - i);
      BranchValues(p, a, b);
      if b & 1 != 0 {
        p := p ^ a;
      }
      var hi := a & 0x80;
      a := (a << 1) & 0xff;
      if hi != 0 {
        a := a ^ 0x1b;
      }
      b := b >> 1;
    }
    MulNoSteps(GF256.Low(a), GF256.Low(b));
    AddZero(GF256.Low(p));
    r := GF256.Low(p);
  }

  /** lines 45-50: a product of 254 factors, against the SDK's square-and-multiply */
  method GfInv(a: number) returns (r: Option<byte>)
    ensures r == if GF256.Low(a) == 0 then None else Some(Inv(GF256.Low(a)))
  {
    hide *;
    GF256.LowIsZero(a);
    if a & 0xff == 0 {
      return None;
    }
    var product := 1 as byte;
    GF256.PowZero(GF256.Low(a));
    for i := 0 to 254
      invariant product == Pow(GF256.Low(a), i)
    {
      GF256.LowOfByte(product);
      PowNext(GF256.Low(a), i);
      product := GfMul(product as number, a);
    }
    GF256.InvIsPow(GF256.Low(a));
    return Some(product);
  }

  lemma PowNext(a: byte, n: nat)
    ensures Pow(a, n + 1) == Mul(Pow(a, n), a)
  {
    Commutes(a, Pow(a, n));
  }

  // ---- interpolation at zero ----

  datatype Candidate = Candidate(x: number, y: seq<byte>)

  function LowXs(points: seq<Candidate>): (xs: seq<byte>)
    ensures |xs| == |points| && forall i :: 0 <= i < |points| ==> xs[i] == GF256.Low(points[i].x)
  {
    seq(|points|, i requires 0 <= i < |points| => GF256.Low(points[i].x))
  }

  predicate SameLength(points: seq<Candidate>) {
    forall i :: 0 <= i < |points| ==> |points[i].y| == |points[0].y|
  }

  function ByteColumn(points: seq<Candidate>, b: nat): (ys: seq<byte>)
    requires SameLength(points) && (points != [] ==> b < |points[0].y|)
    ensures |ys| == |points| && forall i :: 0 <= i < |points| ==> ys[i] == points[i].y[b]
  {
    seq(|points|, i requires 0 <= i < |points| => points[i].y[b])
  }

  /** Byte by byte the value at zero of the polynomial through the points; none if they are degenerate. */
  ghost function AtZero(points: seq<Candidate>): (r: Option<seq<byte>>)
    requires points != []
  {
    if SameLength(points) && Distinct(LowXs(points))
    then Some(seq(|points[0].y|, b requires 0 <= b < |points[0].y| =>
                Eval(Interpolant(LowXs(points), ByteColumn(points, b)), 0)))
    else None
  }

  lemma XorAtZero(a: number, b: number)
    ensures GF256.Low(a ^ b) == Add(GF256.Low(a), GF256.Low(b))
    ensures Add(0, GF256.Low(a)) == GF256.Low(a)
  {
    GF256.LowOfSum(a, b);
  }

  /** lines 60-69: the weight of point `i`, or none when a denominator vanishes */
  method Weight(points: seq<Candidate>, i: nat) returns (r: Option<byte>)
    requires i < |points|
    ensures var xs := LowXs(points);
            r == if Product(Others(xs, i, |xs|), xs[i]) == 0 then None else Some(Basis(xs, i, 0))
  {
    hide Add, Mul, Inv, GF256.Low;
    ghost var xs := LowXs(points);
    var num, den := 1 as byte, 1 as byte;
    for j := 0 to |points|
      invariant num == Product(Others(xs, i, j), 0)
      invariant den == Product(Others(xs, i, j), xs[i])
    {
      OthersStep(xs, i, j);
      if i != j {
        XorAtZero(points[i].x, points[j].x);
        XorAtZero(points[j].x, points[j].x);
        GF256.LowOfByte(num);
        GF256.LowOfByte(den);
        num := GfMul(num as number, points[j].x);
        den := GfMul(den as number, points[i].x ^ points[j].x);
      }
    }
    GF256.LowOfByte(den);
    var inv := GfInv(den as number);
    if inv.None? {
      return None;
    }
    GF256.LowOfByte(num);
    GF256.LowOfByte(inv.value);
    var li := GfMul(num as number, inv.value as number);
    return Some(li);
  }

  /** line 70: `li` times the bytes of point `i`, added in place */
  method AddPoint(points: seq<Candidate>, i: nat, li: byte, out: array<byte>)
    requires SameLength(points) && i < |points| && out.Length == |points[0].y|
    modifies out
    ensures forall b :: 0 <= b < out.Length ==> out[b] == Add(old(out[b]), Mul(points[i].y[b], li))
  {
    hide Add, Mul, GF256.Low;
    for b := 0 to out.Length
      invariant forall c :: 0 <= c < b ==> out[c] == Add(old(out[c]), Mul(points[i].y[c], li))
      invariant forall c :: b <= c < out.Length ==> out[c] == old(out[c])
    {
      GF256.LowOfByte(points[i].y[b]);
      GF256.LowOfByte(li);
      var term := GfMul(points[i].y[b] as number, li as number);
      out[b] := Add(out[b], term);
    }
  }

  /** lines 53-73 */
  method InterpolateAtZero(points: seq<Candidate>) returns (r: Option<seq<byte>>)
    requires points != []
    ensures r == AtZero(points)
  {
    hide *;
    ghost var xs := LowXs(points);
    var len := |points[0].y|;
    if !SameLength(points) {
      Degenerate(points);
      return None;
    }
    if exists i, j :: 0 <= i < j < |points| && points[i].x == points[j].x {
      var i, j :| 0 <= i < j < |points| && points[i].x == points[j].x;
      RepeatedNumber(points, i, j);
      return None;
    }
    var out := new byte[len](_ => 0);
    LagrangeStart(xs, points, len);
    for i := 0 to |points|
      invariant forall k :: 0 <= k < i ==> Product(Others(xs, k, |xs|), xs[k]) != 0
      invariant forall b :: 0 <= b < len ==> out[b] == Lagrange(xs, ByteColumn(points, b), 0, i)
    {
      var weight := Weight(points, i);
      if weight.None? {
        ZeroDenominator(points, i);
        return None;
      }
      forall b | 0 <= b < len { LagrangeStep(xs, ByteColumn(points, b), i); }
      AddPoint(points, i, weight.value, out);
    }
    AtZeroIs(points, out[..]);
    return Some(out[..]);
  }

  lemma Degenerate(points: seq<Candidate>)
    requires points != [] && !SameLength(points)
    ensures AtZero(points) == None
  {}

  lemma RepeatedNumber(points: seq<Candidate>, i: nat, j: nat)
    requires i < j < |points| && points[i].x == points[j].x
    ensures AtZero(points) == None
  {
    assert LowXs(points)[i] == LowXs(points)[j];
    hide GF256.Low;
  }

  lemma ZeroDenominator(points: seq<Candidate>, i: nat)
    requires i < |points|
    requires var xs := LowXs(points); Product(Others(xs, i, |xs|), xs[i]) == 0
    ensures AtZero(points) == None
  {
    hide GF256.Low, Product, Distinct;
    RepeatedX(LowXs(points));
  }

  lemma AtZeroIs(points: seq<Candidate>, out: seq<byte>)
    requires points != [] && SameLength(points) && |out| == |points[0].y|
    requires var xs := LowXs(points); forall k :: 0 <= k < |xs| ==> Product(Others(xs, k, |xs|), xs[k]) != 0
    requires forall b :: 0 <= b < |out| ==> out[b] == Lagrange(LowXs(points), ByteColumn(points, b), 0, |points|)
    ensures AtZero(points) == Some(out)
  {
    hide GF256.Low, Product, Distinct, Lagrange, Eval, Interpolant, Others, Through;
    var xs := LowXs(points);
    RepeatedX(xs);
    forall b | 0 <= b < |out| ensures out[b] == Eval(Interpolant(xs, ByteColumn(points, b)), 0) {
      InterpolantLaw(xs, ByteColumn(points, b));
    }
    assert out == AtZero(points).value;
  }

  lemma LagrangeStart(xs: seq<byte>, points: seq<Candidate>, len: nat)
    requires SameLength(points) && points != [] && len == |points[0].y| && |xs| == |points|
    ensures forall b :: 0 <= b < len ==> Lagrange(xs, ByteColumn(points, b), 0, 0) == 0
  {}

  lemma LagrangeStep(xs: seq<byte>, ys: seq<byte>, i: nat)
    requires |xs| == |ys| && i < |xs|
    ensures Lagrange(xs, ys, 0, i + 1) == Add(Lagrange(xs, ys, 0, i), Mul(ys[i], Basis(xs, i, 0)))
  {}
}

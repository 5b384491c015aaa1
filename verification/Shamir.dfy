/**
 * Shamir's sharing over the field: src/crypto/FiniteField.ts from line 134 on.
 * A share's `y` is a mutable buffer; its contents are read through `Values`.
 */
module Shamir {
  import opened Wrappers
  import opened Field
  import opened Polynomials
  import GF256

  /** What `Number.isInteger` tells apart: NaN, infinities and fractions are `NotAnInteger`. */
  datatype JsNumber = Integer(value: int) | NotAnInteger

  datatype Share = Share(x: JsNumber, y: array<byte>)

  datatype ShareValue = ShareValue(x: JsNumber, y: seq<byte>)

  datatype ShamirError =
    | NotIntegers | ThresholdNotPositive | ThresholdExceedsTotal | TooManyShares
    | NoRandomSource
    | NoShares | InvalidX | DuplicateX | LengthMismatch | EmptyY
    | NotEnoughShares

  function Values(shares: seq<Share>): (values: seq<ShareValue>)
    reads set i | 0 <= i < |shares| :: shares[i].y
    ensures |values| == |shares|
    ensures forall i :: 0 <= i < |shares| ==> values[i] == ShareValue(shares[i].x, shares[i].y[..])
  {
    seq(|shares|, i requires 0 <= i < |shares|
                    reads set i | 0 <= i < |shares| :: shares[i].y
                    => ShareValue(shares[i].x, shares[i].y[..]))
  }

  // ---- structural validity ----

  predicate InRange(x: JsNumber) { x.Integer? && 1 <= x.value <= 255 }

  ghost predicate WellFormed(shares: seq<ShareValue>) {
    && shares != []
    && (forall i :: 0 <= i < |shares| ==> InRange(shares[i].x))
    && (forall i, j :: 0 <= i < j < |shares| ==> shares[i].x != shares[j].x)
    && (forall i :: 0 <= i < |shares| ==> |shares[i].y| == |shares[0].y|)
    && shares[0].y != []
  }

  /** What is wrong with share `k` when the earlier ones are sound. */
  ghost function Fault(shares: seq<ShareValue>, k: nat): Option<ShamirError>
    requires k < |shares|
  {
    if !InRange(shares[k].x) then Some(InvalidX)
    else if exists j :: 0 <= j < k && shares[j].x == shares[k].x then Some(DuplicateX)
    else if |shares[k].y| != |shares[0].y| then Some(LengthMismatch)
    else None
  }

  /** The error the first fault in order gives, if there is one. */
  ghost predicate FirstFault(shares: seq<ShareValue>, error: ShamirError) {
    if shares == [] then error == NoShares
    else if forall k :: 0 <= k < |shares| ==> Fault(shares, k) == None then error == EmptyY && shares[0].y == []
    else exists k :: 0 <= k < |shares| && Fault(shares, k) == Some(error)
                     && forall j :: 0 <= j < k ==> Fault(shares, j) == None
  }

  lemma FaultFree(shares: seq<ShareValue>)
    ensures WellFormed(shares) <==>
              shares != [] && shares[0].y != [] && forall k :: 0 <= k < |shares| ==> Fault(shares, k) == None
  {
    if shares != [] && forall k :: 0 <= k < |shares| ==> Fault(shares, k) == None {
      forall i, j | 0 <= i < j < |shares| ensures shares[i].x != shares[j].x {
        assert Fault(shares, j) == None;
      }
      forall i | 0 <= i < |shares| ensures InRange(shares[i].x) && |shares[i].y| == |shares[0].y| {
        assert Fault(shares, i) == None;
      }
    }
  }

  /** lines 193-215 */
  method ValidateShares(shares: seq<Share>) returns (r: Result<(), ShamirError>)
    ensures r.Success? <==> WellFormed(Values(shares))
    ensures r.Failure? ==> FirstFault(Values(shares), r.error)
  {
    ghost var values := Values(shares);
    if |shares| == 0 {
      return Failure(NoShares);
    }
    FaultFree(values);
    var seen: set<int> := {};
    var len := shares[0].y.Length;
    for i := 0 to |shares|
      invariant forall k :: 0 <= k < i ==> Fault(values, k) == None
      invariant forall k :: 0 <= k < i ==> InRange(shares[k].x) && shares[k].x.value in seen
      invariant forall v :: v in seen ==> exists k :: 0 <= k < i && shares[k].x == Integer(v)
    {
      var share := shares[i];
      if !InRange(share.x) {
        assert Fault(values, i) == Some(InvalidX);
        return Failure(InvalidX);
      }
      if share.x.value in seen {
        assert Fault(values, i) == Some(DuplicateX);
        return Failure(DuplicateX);
      }
      seen := seen + {share.x.value};
      if share.y.Length != len {
        assert Fault(values, i) == Some(LengthMismatch);
        return Failure(LengthMismatch);
      }
      assert Fault(values, i) == None;
    }
    if len == 0 {
      return Failure(EmptyY);
    }
    return Success(());
  }

  // ---- the points of a share set ----

  function XByte(x: JsNumber): byte {
    if InRange(x) then x.value as byte else 0
  }

  function Xs(shares: seq<ShareValue>): (xs: seq<byte>)
    ensures |xs| == |shares|
    ensures forall i :: 0 <= i < |shares| ==> xs[i] == XByte(shares[i].x)
  {
    seq(|shares|, i requires 0 <= i < |shares| => XByte(shares[i].x))
  }

  /** Byte `b` of every share. */
  function Column(shares: seq<ShareValue>, b: nat): (ys: seq<byte>)
    requires forall i :: 0 <= i < |shares| ==> b < |shares[i].y|
    ensures |ys| == |shares|
    ensures forall i :: 0 <= i < |shares| ==> ys[i] == shares[i].y[b]
  {
    seq(|shares|, i requires 0 <= i < |shares| => shares[i].y[b])
  }

  lemma XByteValue(x: JsNumber)
    requires InRange(x)
    ensures XByte(x) as int == x.value && XByte(x) != 0
  {
    ByteOfInt(x.value);
    assert XByte(x) as int == x.value;
  }

  lemma DistinctXs(shares: seq<ShareValue>)
    requires forall i :: 0 <= i < |shares| ==> InRange(shares[i].x)
    requires forall i, j :: 0 <= i < j < |shares| ==> shares[i].x != shares[j].x
    ensures Distinct(Xs(shares)) && 0 !in Xs(shares)
  {
    forall i | 0 <= i < |shares| ensures XByte(shares[i].x) as int == shares[i].x.value && XByte(shares[i].x) != 0 {
      XByteValue(shares[i].x);
    }
    hide XByte;
    forall i, j | 0 <= i < j < |shares| ensures Xs(shares)[i] != Xs(shares)[j] {}
  }

  // ---- evaluation and interpolation ----

  /** lines 247-255 */
  method EvaluatePolynomial(coefficients: poly, x: byte) returns (result: byte)
    ensures result == Eval(coefficients, x)
  {
    hide Add, Mul, GF256.Low;
    result := 0;
    var xPower := 1 as byte;
    One(Eval(coefficients, x));
    AddZero(Eval(coefficients, x));
    for i := 0 to |coefficients|
      invariant Add(result, Mul(xPower, Eval(coefficients[i..], x))) == Eval(coefficients, x)
    {
      var coeff := coefficients[i];
      assert coefficients[i..][1..] == coefficients[i + 1..];
      EvaluateStep(result, xPower, coeff, x, Eval(coefficients[i + 1..], x));
      GF256.LowOfByte(coeff);
      GF256.LowOfByte(xPower);
      GF256.LowOfByte(x);
      var term := GF256.Multiply(coeff as GF256.number, xPower as GF256.number);
      result := Add(result, term);
      xPower := GF256.Multiply(xPower as GF256.number, x as GF256.number);
    }
    Zero(xPower);
    AddZero(result);
  }

  lemma EvaluateStep(result: byte, xPower: byte, coeff: byte, x: byte, rest: byte)
    ensures Add(result, Mul(xPower, Add(coeff, Mul(x, rest))))
         == Add(Add(result, Mul(coeff, xPower)), Mul(Mul(xPower, x), rest))
  {
    hide Add, Mul;
    Distributes(coeff, Mul(x, rest), xPower);
    Commutes(coeff, xPower);
    Associates(xPower, x, rest);
    AddAssociates(result, Mul(coeff, xPower), Mul(xPower, Mul(x, rest)));
  }

  datatype Point = Point(x: byte, y: byte)

  function PointXs(points: seq<Point>): (xs: seq<byte>)
    ensures |xs| == |points| && forall i :: 0 <= i < |points| ==> xs[i] == points[i].x
  {
    seq(|points|, i requires 0 <= i < |points| => points[i].x)
  }

  function PointYs(points: seq<Point>): (ys: seq<byte>)
    ensures |ys| == |points| && forall i :: 0 <= i < |points| ==> ys[i] == points[i].y
  {
    seq(|points|, i requires 0 <= i < |points| => points[i].y)
  }

  lemma OthersStep(xs: seq<byte>, i: nat, j: nat)
    requires i < |xs| && j < |xs|
    ensures i == j ==> Others(xs, i, j + 1) == Others(xs, i, j)
    ensures i != j ==> Others(xs, i, j + 1) == Others(xs, i, j) + [xs[j]]
  {}

  lemma RepeatedPoint(xs: seq<byte>)
    ensures Distinct(xs) <==> forall i :: 0 <= i < |xs| ==> xs[i] !in Others(xs, i, |xs|)
  {
    if Distinct(xs) {
      forall i | 0 <= i < |xs| ensures xs[i] !in Others(xs, i, |xs|) {
      }
    } else {
      var i, j :| 0 <= i < j < |xs| && xs[i] == xs[j];
      assert Others(xs, i, |xs|)[j - 1] == xs[j];
    }
  }

  lemma RepeatedX(xs: seq<byte>)
    ensures Distinct(xs) <==> forall i :: 0 <= i < |xs| ==> Product(Others(xs, i, |xs|), xs[i]) != 0
  {
    RepeatedPoint(xs);
    hide Product, Distinct, Others;
    forall i | 0 <= i < |xs|
      ensures Product(Others(xs, i, |xs|), xs[i]) == 0 <==> xs[i] in Others(xs, i, |xs|)
    {
      ProductZero(Others(xs, i, |xs|), xs[i]);
    }
  }

  /** One basis value of lines 265-277: both products, then the quotient. */
  method BasisValue(points: seq<Point>, i: nat, x: byte) returns (r: Result<byte, GF256.FieldError>)
    requires i < |points|
    ensures var xs := PointXs(points);
            var denominator := Product(Others(xs, i, |xs|), xs[i]);
            if denominator == 0 then r == Failure(GF256.DivisionByZero)
            else r == Success(Basis(xs, i, x))
  {
    hide Add, Mul, Inv, GF256.Low;
    ghost var xs := PointXs(points);
    var numerator, denominator := 1 as byte, 1 as byte;
    for j := 0 to |points|
      invariant numerator == Product(Others(xs, i, j), x)
      invariant denominator == Product(Others(xs, i, j), xs[i])
    {
      OthersStep(xs, i, j);
      if i != j {
        var xj := points[j].x;
        GF256.LowOfByte(numerator);
        GF256.LowOfByte(denominator);
        GF256.LowOfByte(Add(x, xj));
        GF256.LowOfByte(Add(points[i].x, xj));
        numerator := GF256.Multiply(numerator as GF256.number, Add(x, xj) as GF256.number);
        denominator := GF256.Multiply(denominator as GF256.number, Add(points[i].x, xj) as GF256.number);
      }
    }
    GF256.LowOfByte(numerator);
    GF256.LowOfByte(denominator);
    r := GF256.Divide(numerator as GF256.number, denominator as GF256.number);
  }

  /** lines 260-280 */
  method LagrangeInterpolation(points: seq<Point>, x: byte) returns (r: Result<byte, GF256.FieldError>)
    ensures r.Failure? ==> r.error == GF256.DivisionByZero
    ensures r.Success? <==> Distinct(PointXs(points))
    ensures r.Success? ==> r.value == Eval(Interpolant(PointXs(points), PointYs(points)), x)
  {
    hide Add, Mul, Inv, Product, Basis, Eval, Interpolant, GF256.Low;
    ghost var xs, ys := PointXs(points), PointYs(points);
    RepeatedX(xs);
    var result := 0 as byte;
    for i := 0 to |points|
      invariant forall k :: 0 <= k < i ==> Product(Others(xs, k, |xs|), xs[k]) != 0
      invariant result == Lagrange(xs, ys, x, i)
    {
      var basis := BasisValue(points, i, x);
      if basis.Failure? {
        return Failure(basis.error);
      }
      GF256.LowOfByte(points[i].y);
      GF256.LowOfByte(basis.value);
      var term := GF256.Multiply(points[i].y as GF256.number, basis.value as GF256.number);
      result := Add(result, term);
    }
    InterpolantLaw(xs, ys);
    return Success(result);
  }

  // ---- what the scheme computes, as functions of the share contents ----

  /** One coefficient row per secret byte, all of the threshold's length. */
  predicate CoinsFor(secret: seq<byte>, coins: seq<poly>, threshold: nat) {
    |coins| == |secret| && forall b :: 0 <= b < |coins| ==> |coins[b]| + 1 == threshold
  }

  function ShareAt(secret: seq<byte>, coins: seq<poly>, x: int): ShareValue
    requires |coins| == |secret| && 1 <= x <= 255
  {
    ShareValue(Integer(x), seq(|secret|, b requires 0 <= b < |secret| => Eval([secret[b]] + coins[b], x as byte)))
  }

  function Split(secret: seq<byte>, coins: seq<poly>, total: nat): (shares: seq<ShareValue>)
    requires |coins| == |secret| && total <= 255
    ensures |shares| == total
    ensures forall k :: 0 <= k < total ==> shares[k] == ShareAt(secret, coins, k + 1)
  {
    seq(total, k requires 0 <= k < total => ShareAt(secret, coins, k + 1))
  }

  /** The polynomial the first `threshold` shares give for byte `b`. */
  ghost function BytePoly(shares: seq<ShareValue>, threshold: nat, b: nat): (p: poly)
    requires threshold <= |shares| && forall i :: 0 <= i < |shares| ==> b < |shares[i].y|
    ensures |p| == threshold
  {
    Interpolant(Xs(shares[..threshold]), Column(shares[..threshold], b))
  }

  ghost function Reconstruction(shares: seq<ShareValue>, threshold: nat): (secret: seq<byte>)
    requires 1 <= threshold <= |shares|
    requires forall i :: 0 <= i < |shares| ==> |shares[i].y| == |shares[0].y|
    ensures |secret| == |shares[0].y|
  {
    seq(|shares[0].y|, b requires 0 <= b < |shares[0].y| => Eval(BytePoly(shares, threshold, b), 0))
  }

  /** Byte `b` of every share lies on `p`. */
  ghost predicate OnPoly(p: poly, shares: seq<ShareValue>, b: nat)
    requires forall i :: 0 <= i < |shares| ==> b < |shares[i].y|
  {
    Through(p, Xs(shares), Column(shares, b))
  }

  ghost predicate ByteConsistent(shares: seq<ShareValue>, threshold: nat, b: nat)
    requires forall i :: 0 <= i < |shares| ==> b < |shares[i].y|
  {
    exists p: poly :: |p| == threshold && OnPoly(p, shares, b)
  }

  /** Every byte position has one polynomial of degree below `threshold` through all shares. */
  ghost predicate Consistent(shares: seq<ShareValue>, threshold: nat)
    requires WellFormed(shares)
  {
    forall b :: 0 <= b < |shares[0].y| ==> ByteConsistent(shares, threshold, b)
  }

  // ---- the theorems ----

  lemma PrefixDistinct(shares: seq<ShareValue>, n: nat)
    requires WellFormed(shares) && n <= |shares|
    ensures Distinct(Xs(shares[..n]))
  {
    DistinctXs(shares);
    hide XByte;
  }

  /** The interpolated polynomial is the one the shares lie on. */
  lemma BytePolyIs(shares: seq<ShareValue>, threshold: nat, b: nat, p: poly)
    requires WellFormed(shares) && threshold <= |shares| && b < |shares[0].y|
    requires |p| == threshold && OnPoly(p, shares, b)
    ensures BytePoly(shares, threshold, b) == p
  {
    hide Eval, Interpolant, XByte;
    var base := shares[..threshold];
    PrefixDistinct(shares, threshold);
    InterpolantLaw(Xs(base), Column(base, b));
    forall i | 0 <= i < threshold ensures Eval(p, Xs(base)[i]) == Column(base, b)[i] {
      assert Eval(p, Xs(shares)[i]) == Column(shares, b)[i];
    }
    assert Through(p, Xs(base), Column(base, b));
  }

  /**
   * What reconstruction gives for every valid set, consistent or not: byte by byte the
   * value at zero of the one polynomial of that length through the first shares.
   */
  lemma ReconstructionIs(shares: seq<ShareValue>, threshold: nat, b: nat, p: poly)
    requires WellFormed(shares) && 1 <= threshold <= |shares| && b < |shares[0].y|
    requires |p| == threshold && forall i :: 0 <= i < threshold ==> Eval(p, XByte(shares[i].x)) == shares[i].y[b]
    ensures Reconstruction(shares, threshold)[b] == Eval(p, 0)
  {
    hide Eval, Interpolant, XByte;
    var base := shares[..threshold];
    PrefixDistinct(shares, threshold);
    InterpolantLaw(Xs(base), Column(base, b));
    forall i | 0 <= i < threshold ensures Eval(p, Xs(base)[i]) == Column(base, b)[i] {
      assert base[i] == shares[i];
    }
    assert Through(p, Xs(base), Column(base, b));
  }

  /** There always is such a polynomial. */
  lemma FirstSharesFit(shares: seq<ShareValue>, threshold: nat, b: nat) returns (p: poly)
    requires WellFormed(shares) && 1 <= threshold <= |shares| && b < |shares[0].y|
    ensures |p| == threshold && forall i :: 0 <= i < threshold ==> Eval(p, XByte(shares[i].x)) == shares[i].y[b]
  {
    hide Eval, Interpolant, XByte;
    var base := shares[..threshold];
    PrefixDistinct(shares, threshold);
    InterpolantLaw(Xs(base), Column(base, b));
    p := BytePoly(shares, threshold, b);
    forall i | 0 <= i < threshold ensures Eval(p, XByte(shares[i].x)) == shares[i].y[b] {
      assert Eval(p, Xs(base)[i]) == Column(base, b)[i];
    }
  }

  /**
   * Splitting and reconstructing: any list of at least `threshold` different
   * shares of a split, in any order, is well formed and gives the secret back.
   */
  lemma RoundTrip(secret: seq<byte>, coins: seq<poly>, threshold: nat, total: nat, chosen: seq<ShareValue>)
    requires secret != [] && 1 <= threshold <= total <= 255 && CoinsFor(secret, coins, threshold)
    requires |chosen| >= threshold
    requires forall i :: 0 <= i < |chosen| ==> chosen[i] in Split(secret, coins, total)
    requires forall i, j :: 0 <= i < j < |chosen| ==> chosen[i] != chosen[j]
    ensures WellFormed(chosen)
    ensures Consistent(chosen, threshold)
    ensures Reconstruction(chosen, threshold) == secret
  {
    hide Eval, Interpolant, XByte, BytePoly, Add, Mul, Through;
    ChosenShares(secret, coins, total, chosen);
    forall b | 0 <= b < |secret|
      ensures ByteConsistent(chosen, threshold, b)
      ensures Eval(BytePoly(chosen, threshold, b), 0) == secret[b]
    {
      var p := [secret[b]] + coins[b];
      ChosenOnPoly(secret, coins, total, chosen, b);
      BytePolyIs(chosen, threshold, b, p);
      EvalAtZero(p);
    }
  }

  lemma EvalAtZero(p: poly)
    requires p != []
    ensures Eval(p, 0) == p[0]
  {
    hide Add, Mul;
    Zero(Eval(p[1..], 0));
    AddZero(p[0]);
  }

  lemma ChosenShares(secret: seq<byte>, coins: seq<poly>, total: nat, chosen: seq<ShareValue>)
    requires secret != [] && |coins| == |secret| && total <= 255 && chosen != []
    requires forall i :: 0 <= i < |chosen| ==> chosen[i] in Split(secret, coins, total)
    requires forall i, j :: 0 <= i < j < |chosen| ==> chosen[i] != chosen[j]
    ensures WellFormed(chosen) && |chosen[0].y| == |secret|
    ensures forall i :: 0 <= i < |chosen| ==> InRange(chosen[i].x) && chosen[i] == ShareAt(secret, coins, chosen[i].x.value)
  {
    hide Eval;
    forall i | 0 <= i < |chosen|
      ensures InRange(chosen[i].x) && chosen[i] == ShareAt(secret, coins, chosen[i].x.value)
    {
      var k :| 0 <= k < total && chosen[i] == Split(secret, coins, total)[k];
    }
  }

  lemma ChosenOnPoly(secret: seq<byte>, coins: seq<poly>, total: nat, chosen: seq<ShareValue>, b: nat)
    requires |coins| == |secret| && total <= 255 && b < |secret|
    requires forall i :: 0 <= i < |chosen| ==> |chosen[i].y| == |secret|
    requires forall i :: 0 <= i < |chosen| ==> InRange(chosen[i].x) && chosen[i] == ShareAt(secret, coins, chosen[i].x.value)
    ensures OnPoly([secret[b]] + coins[b], chosen, b)
  {
    hide Eval;
    var p := [secret[b]] + coins[b];
    forall i | 0 <= i < |chosen| ensures Eval(p, Xs(chosen)[i]) == Column(chosen, b)[i] {
      assert chosen[i] == ShareAt(secret, coins, chosen[i].x.value);
    }
  }

  /** `threshold` or more shares of a consistent set determine its polynomials. */
  lemma SubsetDetermines(shares: seq<ShareValue>, threshold: nat, chosen: seq<ShareValue>)
    requires WellFormed(shares) && 1 <= threshold <= |shares| && Consistent(shares, threshold)
    requires |chosen| >= threshold
    requires forall i :: 0 <= i < |chosen| ==> chosen[i] in shares
    requires forall i, j :: 0 <= i < j < |chosen| ==> chosen[i] != chosen[j]
    ensures WellFormed(chosen) && |chosen[0].y| == |shares[0].y|
    ensures forall b :: 0 <= b < |shares[0].y| ==> BytePoly(chosen, threshold, b) == BytePoly(shares, threshold, b)
  {
    hide Eval, Interpolant, XByte, BytePoly;
    assert forall i :: 0 <= i < |chosen| ==> exists k :: 0 <= k < |shares| && chosen[i] == shares[k];
    forall b | 0 <= b < |shares[0].y|
      ensures BytePoly(chosen, threshold, b) == BytePoly(shares, threshold, b)
    {
      assert ByteConsistent(shares, threshold, b);
      var p: poly :| |p| == threshold && OnPoly(p, shares, b);
      forall i | 0 <= i < |chosen| ensures Eval(p, Xs(chosen)[i]) == Column(chosen, b)[i] {
        var k :| 0 <= k < |shares| && chosen[i] == shares[k];
        assert Eval(p, Xs(shares)[k]) == Column(shares, b)[k];
      }
      assert OnPoly(p, chosen, b);
      BytePolyIs(shares, threshold, b, p);
      BytePolyIs(chosen, threshold, b, p);
    }
  }

  /** In a consistent set any `threshold` shares, in any order, reconstruct the same bytes. */
  lemma AnySubsetAgrees(shares: seq<ShareValue>, threshold: nat, chosen: seq<ShareValue>)
    requires WellFormed(shares) && 1 <= threshold <= |shares| && Consistent(shares, threshold)
    requires |chosen| >= threshold
    requires forall i :: 0 <= i < |chosen| ==> chosen[i] in shares
    requires forall i, j :: 0 <= i < j < |chosen| ==> chosen[i] != chosen[j]
    ensures WellFormed(chosen) && |chosen[0].y| == |shares[0].y|
    ensures Reconstruction(chosen, threshold) == Reconstruction(shares, threshold)
  {
    hide Eval, BytePoly, Consistent;
    SubsetDetermines(shares, threshold, chosen);
  }

  // ---- forged shares ----

  /** The same x values and lengths, share by share. */
  ghost predicate SameShape(shares: seq<ShareValue>, forged: seq<ShareValue>) {
    && |shares| == |forged|
    && forall i :: 0 <= i < |shares| ==> forged[i].x == shares[i].x && |forged[i].y| == |shares[i].y|
  }

  /** The shares nobody altered. */
  function Kept(shares: seq<ShareValue>, forged: seq<ShareValue>): (kept: seq<ShareValue>)
    requires |shares| == |forged|
  {
    if shares == [] then []
    else (if shares[0] == forged[0] then [shares[0]] else []) + Kept(shares[1..], forged[1..])
  }

  /** How many shares were altered. */
  function Altered(shares: seq<ShareValue>, forged: seq<ShareValue>): nat
    requires |shares| == |forged|
  {
    if shares == [] then 0 else (if shares[0] == forged[0] then 0 else 1) + Altered(shares[1..], forged[1..])
  }

  lemma KeptStep(shares: seq<ShareValue>, forged: seq<ShareValue>, rest: seq<ShareValue>)
    requires |shares| == |forged| > 0
    requires forall i, j :: 0 <= i < j < |shares| ==> shares[i].x != shares[j].x
    requires forall s :: s in rest ==> s in shares[1..] && s in forged[1..]
    requires NoRepeats(rest)
    ensures var kept := (if shares[0] == forged[0] then [shares[0]] else []) + rest;
            NoRepeats(kept) && forall s :: s in kept ==> s in shares && s in forged
  {
    forall i | 0 <= i < |rest| ensures rest[i] != shares[0] {
      assert rest[i] in shares[1..];
    }
    assert forall s :: s in shares[1..] ==> s in shares;
    assert forall s :: s in forged[1..] ==> s in forged;
  }

  lemma {:induction false} KeptLaw(shares: seq<ShareValue>, forged: seq<ShareValue>)
    requires |shares| == |forged|
    requires forall i, j :: 0 <= i < j < |shares| ==> shares[i].x != shares[j].x
    ensures |Kept(shares, forged)| + Altered(shares, forged) == |shares|
    ensures forall s :: s in Kept(shares, forged) ==> s in shares && s in forged
    ensures NoRepeats(Kept(shares, forged))
  {
    hide NoRepeats;
    if shares != [] {
      KeptLaw(shares[1..], forged[1..]);
      KeptStep(shares, forged, Kept(shares[1..], forged[1..]));
    } else {
      NoneRepeats<ShareValue>();
    }
  }

  lemma NoneRepeats<T>()
    ensures NoRepeats<T>([])
  {}

  /**
   * Two consistent sets that differ in at most |shares| - threshold shares are
   * equal: so many altered shares never go unseen, whichever they are.
   */
  lemma ForgeryIsSeen(shares: seq<ShareValue>, forged: seq<ShareValue>, threshold: nat)
    requires WellFormed(shares) && SameShape(shares, forged) && 1 <= threshold <= |shares|
    requires Consistent(shares, threshold)
    requires forged != shares && Altered(shares, forged) <= |shares| - threshold
    ensures WellFormed(forged) && !Consistent(forged, threshold)
  {
    KeptLaw(shares, forged);
    hide Eval, Interpolant, XByte, BytePoly, WellFormed, Consistent, Altered;
    if Consistent(forged, threshold) {
      var kept := Kept(shares, forged);
      assert forall i :: 0 <= i < |kept| ==> kept[i] in kept;
      SubsetDetermines(shares, threshold, kept);
      SubsetDetermines(forged, threshold, kept);
      SamePolynomialsSameShares(shares, forged, threshold);
    }
  }

  lemma SamePolynomialsSameShares(shares: seq<ShareValue>, forged: seq<ShareValue>, threshold: nat)
    requires WellFormed(shares) && WellFormed(forged) && SameShape(shares, forged) && 1 <= threshold <= |shares|
    requires Consistent(shares, threshold) && Consistent(forged, threshold)
    requires forall b :: 0 <= b < |shares[0].y| ==> BytePoly(shares, threshold, b) == BytePoly(forged, threshold, b)
    ensures forged == shares
  {
    hide Eval, Interpolant, XByte, BytePoly;
    forall i, b | 0 <= i < |shares| && 0 <= b < |shares[0].y| ensures forged[i].y[b] == shares[i].y[b] {
      assert ByteConsistent(shares, threshold, b) && ByteConsistent(forged, threshold, b);
      var p: poly :| |p| == threshold && OnPoly(p, shares, b);
      var q: poly :| |q| == threshold && OnPoly(q, forged, b);
      BytePolyIs(shares, threshold, b, p);
      BytePolyIs(forged, threshold, b, q);
      assert Eval(p, Xs(shares)[i]) == Column(shares, b)[i];
      assert Eval(q, Xs(forged)[i]) == Column(forged, b)[i];
    }
    forall i | 0 <= i < |shares| ensures forged[i] == shares[i] {
      assert forged[i].y == shares[i].y;
    }
  }

  lemma {:induction false} NoneAltered(shares: seq<ShareValue>)
    ensures Altered(shares, shares) == 0
  {
    if shares != [] { NoneAltered(shares[1..]); }
  }

  lemma {:induction false} OneAltered(shares: seq<ShareValue>, k: nat, share: ShareValue)
    requires k < |shares|
    ensures Altered(shares, shares[k := share]) <= 1
  {
    var forged := shares[k := share];
    if k == 0 {
      assert forged[1..] == shares[1..];
      NoneAltered(shares[1..]);
    } else {
      assert forged[1..] == shares[1..][k - 1 := share];
      OneAltered(shares[1..], k - 1, share);
    }
  }

  /** One forged share goes unseen exactly when there are no more than `threshold` shares. */
  lemma OneForgedShare(shares: seq<ShareValue>, threshold: nat, k: nat, y: seq<byte>)
    requires WellFormed(shares) && 1 <= threshold <= |shares| && Consistent(shares, threshold)
    requires k < |shares| && y != shares[k].y && |y| == |shares[k].y|
    ensures var forged := shares[k := ShareValue(shares[k].x, y)];
            WellFormed(forged) && (Consistent(forged, threshold) <==> |shares| == threshold)
  {
    hide Eval, BytePoly, XByte;
    var forged := shares[k := ShareValue(shares[k].x, y)];
    if |shares| > threshold {
      OneAltered(shares, k, ShareValue(shares[k].x, y));
      assert forged[k] != shares[k];
      ForgeryIsSeen(shares, forged, threshold);
    } else {
      forall b | 0 <= b < |forged[0].y| ensures ByteConsistent(forged, threshold, b) {
        ConsistentIffPredicted(forged, threshold, b);
      }
    }
  }

  /** The set with the value of the polynomial with these roots added to every byte. */
  function Shifted(shares: seq<ShareValue>, zs: seq<byte>): (forged: seq<ShareValue>)
    ensures SameShape(shares, forged)
    ensures forall i, b :: 0 <= i < |shares| && 0 <= b < |shares[i].y| ==>
              forged[i].y[b] == Add(shares[i].y[b], Product(zs, XByte(shares[i].x)))
  {
    seq(|shares|, i requires 0 <= i < |shares| => ShiftedShare(shares[i], Product(zs, XByte(shares[i].x))))
  }

  function ShiftedShare(share: ShareValue, d: byte): ShareValue {
    ShareValue(share.x, seq(|share.y|, b requires 0 <= b < |share.y| => Add(share.y[b], d)))
  }

  lemma ShiftedShareIs(share: ShareValue, d: byte)
    requires share.y != []
    ensures ShiftedShare(share, d) == share <==> d == 0
  {
    if d == 0 {
      forall b | 0 <= b < |share.y| ensures ShiftedShare(share, d).y[b] == share.y[b] { AddZero(share.y[b]); }
      assert ShiftedShare(share, d).y == share.y;
    } else {
      AddZeroOnlyIfEqual(ShiftedShare(share, d).y[0], share.y[0]);
      AddChanges(share.y[0], d);
    }
  }

  lemma AddChanges(a: byte, d: byte)
    ensures Add(a, d) == a <==> d == 0
  {}

  lemma ShiftedOnPoly(shares: seq<ShareValue>, zs: seq<byte>, b: nat, p: poly)
    requires forall i :: 0 <= i < |shares| ==> b < |shares[i].y|
    requires |p| == |zs| + 1 && OnPoly(p, shares, b)
    ensures OnPoly(Plus(p, ProductPoly(zs)), Shifted(shares, zs), b)
  {
    hide Eval, Product, ProductPoly, Plus, XByte, Add, Shifted;
    var forged := Shifted(shares, zs);
    forall i | 0 <= i < |shares|
      ensures Eval(Plus(p, ProductPoly(zs)), Xs(forged)[i]) == Column(forged, b)[i]
    {
      EvalPlus(p, ProductPoly(zs), XByte(shares[i].x));
      EvalProductPoly(zs, XByte(shares[i].x));
      assert Eval(p, Xs(shares)[i]) == Column(shares, b)[i];
    }
  }

  /**
   * The bound is exact: for any `threshold - 1` x values, altering all other shares
   * can leave a consistent set consistent.
   */
  lemma ForgeryUnseen(shares: seq<ShareValue>, threshold: nat, zs: seq<byte>)
    requires WellFormed(shares) && 1 <= threshold <= |shares| && Consistent(shares, threshold)
    requires |zs| == threshold - 1
    ensures var forged := Shifted(shares, zs);
            && WellFormed(forged) && Consistent(forged, threshold)
            && forall i :: 0 <= i < |shares| ==> (forged[i] == shares[i] <==> XByte(shares[i].x) in zs)
  {
    var forged := Shifted(shares, zs);
    assert WellFormed(forged) by { ForgedIsWellFormed(shares, forged); }
    hide Eval, Product, ProductPoly, XByte, ShiftedShare;
    forall b | 0 <= b < |forged[0].y| ensures ByteConsistent(forged, threshold, b) {
      assert ByteConsistent(shares, threshold, b);
      var p: poly :| |p| == threshold && OnPoly(p, shares, b);
      ShiftedOnPoly(shares, zs, b, p);
      assert |Plus(p, ProductPoly(zs))| == threshold;
    }
    forall i | 0 <= i < |shares| ensures forged[i] == shares[i] <==> XByte(shares[i].x) in zs {
      ShiftedShareIs(shares[i], Product(zs, XByte(shares[i].x)));
      ProductZero(zs, XByte(shares[i].x));
    }
  }

  lemma ForgedIsWellFormed(shares: seq<ShareValue>, forged: seq<ShareValue>)
    requires WellFormed(shares) && SameShape(shares, forged)
    ensures WellFormed(forged)
  {
    assert forall i :: 0 <= i < |forged| ==> InRange(forged[i].x);
    forall i, j | 0 <= i < j < |forged| ensures forged[i].x != forged[j].x {
      assert shares[i].x != shares[j].x;
    }
  }

  lemma {:induction false} AlteredFrom(shares: seq<ShareValue>, forged: seq<ShareValue>, k: nat)
    requires |shares| == |forged| && k <= |shares|
    requires forall i :: 0 <= i < |shares| ==> (forged[i] == shares[i] <==> i < k)
    ensures Altered(shares, forged) == |shares| - k
  {
    if shares != [] { AlteredFrom(shares[1..], forged[1..], if k == 0 then 0 else k - 1); }
  }

  /** One altered share more than `ForgeryIsSeen` allows can go unseen in every consistent set. */
  lemma SeenBoundIsExact(shares: seq<ShareValue>, threshold: nat) returns (forged: seq<ShareValue>)
    requires WellFormed(shares) && 1 <= threshold <= |shares| && Consistent(shares, threshold)
    ensures SameShape(shares, forged) && Altered(shares, forged) == |shares| - threshold + 1
    ensures WellFormed(forged) && Consistent(forged, threshold)
  {
    var k := threshold - 1;
    var zs := Xs(shares)[..k];
    forged := Shifted(shares, zs);
    ForgeryUnseen(shares, threshold, zs);
    DistinctXs(shares);
    hide XByte, Product, Consistent, Shifted;
    forall i | 0 <= i < |shares| ensures XByte(shares[i].x) in zs <==> i < k {
      if i < k { assert zs[i] == Xs(shares)[i]; }
      if j :| 0 <= j < k && zs[j] == XByte(shares[i].x) { assert Xs(shares)[j] == Xs(shares)[i]; }
    }
    AlteredFrom(shares, forged, k);
  }

  predicate ArePolynomials(polynomials: seq<poly>, secret: seq<byte>, coins: seq<poly>) {
    && |polynomials| == |secret| == |coins|
    && forall b :: 0 <= b < |secret| ==> polynomials[b] == [secret[b]] + coins[b]
  }

  /** lines 174-177: the bytes of the share at `x`, written in place */
  method EvaluateAll(polynomials: seq<poly>, x: int, ghost secret: seq<byte>, ghost coins: seq<poly>)
    returns (shareBytes: array<byte>)
    requires 1 <= x <= 255 && ArePolynomials(polynomials, secret, coins)
    ensures fresh(shareBytes) && shareBytes[..] == ShareAt(secret, coins, x).y
  {
    hide Eval;
    shareBytes := new byte[|polynomials|];
    for b := 0 to |polynomials|
      invariant forall k :: 0 <= k < b ==> shareBytes[k] == Eval(polynomials[k], x as byte)
    {
      shareBytes[b] := EvaluatePolynomial(polynomials[b], x as byte);
    }
    assert shareBytes[..] == ShareAt(secret, coins, x).y;
  }

  /** lines 162-170: a polynomial for each secret byte, from the coefficients the random source gives */
  method BuildPolynomials(secret: seq<byte>, random: Option<seq<poly>>) returns (r: Result<seq<poly>, ShamirError>)
    requires random.Some? ==> |random.value| == |secret|
    ensures r.Failure? <==> random.None? && secret != []
    ensures r.Failure? ==> r.error == NoRandomSource
    ensures r.Success? ==> ArePolynomials(r.value, secret, if random.Some? then random.value else [])
  {
    var polynomials: seq<poly> := [];
    for b := 0 to |secret|
      invariant b > 0 ==> random.Some?
      invariant |polynomials| == b
      invariant forall k :: 0 <= k < b ==> polynomials[k] == [secret[k]] + random.value[k]
    {
      if random.None? {
        return Failure(NoRandomSource);
      }
      var coefficients := [secret[b]];
      var randomCoeffs := random.value[b];
      for i := 0 to |randomCoeffs|
        invariant coefficients == [secret[b]] + randomCoeffs[..i]
      {
        coefficients := coefficients + [randomCoeffs[i]];
      }
      assert randomCoeffs[..|randomCoeffs|] == randomCoeffs;
      polynomials := polynomials + [coefficients];
    }
    return Success(polynomials);
  }

  /** lines 172-179 */
  method EvaluateShares(polynomials: seq<poly>, total: nat, ghost secret: seq<byte>, ghost coins: seq<poly>)
    returns (shares: seq<Share>)
    requires total <= 255 && ArePolynomials(polynomials, secret, coins)
    ensures |shares| == total && forall i :: 0 <= i < total ==> fresh(shares[i].y)
    ensures forall i, j :: 0 <= i < j < total ==> shares[i].y != shares[j].y
    ensures forall k :: 0 <= k < total ==> ShareValue(shares[k].x, shares[k].y[..]) == ShareAt(secret, coins, k + 1)
  {
    hide Eval, ArePolynomials;
    assert |coins| == |secret| by { SameNumber(polynomials, secret, coins); }
    hide ShareAt;
    shares := [];
    for x := 1 to total + 1
      invariant |shares| == x - 1
      invariant forall k :: 0 <= k < x - 1 ==> fresh(shares[k].y)
      invariant forall j, k :: 0 <= j < k < x - 1 ==> shares[j].y != shares[k].y
      invariant forall k :: 0 <= k < x - 1 ==>
                  ShareValue(shares[k].x, shares[k].y[..]) == ShareAt(secret, coins, k + 1)
    {
      var shareBytes := EvaluateAll(polynomials, x, secret, coins);
      ShareAtX(secret, coins, x);
      shares := shares + [Share(Integer(x), shareBytes)];
    }
  }

  lemma SameNumber(polynomials: seq<poly>, secret: seq<byte>, coins: seq<poly>)
    requires ArePolynomials(polynomials, secret, coins)
    ensures |polynomials| == |secret| == |coins|
  {}

  lemma ShareAtX(secret: seq<byte>, coins: seq<poly>, x: int)
    requires |coins| == |secret| && 1 <= x <= 255
    ensures ShareAt(secret, coins, x).x == Integer(x)
  {}

  lemma SplitIs(secret: seq<byte>, coins: seq<poly>, total: nat, values: seq<ShareValue>)
    requires |coins| == |secret| && total == |values| <= 255
    requires forall k :: 0 <= k < total ==> values[k] == ShareAt(secret, coins, k + 1)
    ensures values == Split(secret, coins, total)
  {
    hide ShareAt;
  }

  // ---- the scheme ----

  datatype Scheme = Scheme(threshold: nat, total: nat) {
    predicate Valid() { 1 <= threshold <= total <= 255 }

    /** lines 135-148 */
    static function Create(threshold: JsNumber, total: JsNumber): (r: Result<Scheme, ShamirError>)
      ensures r.Success? <==> threshold.Integer? && total.Integer? && 1 <= threshold.value <= total.value <= 255
      ensures r.Success? ==> r.value.Valid() && r.value == Scheme(threshold.value, total.value)
    {
      if threshold.NotAnInteger? || total.NotAnInteger? then Failure(NotIntegers)
      else if threshold.value <= 0 then Failure(ThresholdNotPositive)
      else if threshold.value > total.value then Failure(ThresholdExceedsTotal)
      else if total.value > 255 then Failure(TooManyShares)
      else Success(Scheme(threshold.value, total.value))
    }

    /**
     * lines 153-182. `random` is what the random source returns for each secret
     * byte; there is none when the runtime has no secure generator.
     */
    method SplitSecret(secret: seq<byte>, random: Option<seq<poly>>) returns (r: Result<seq<Share>, ShamirError>)
      requires Valid()
      requires random.Some? ==> CoinsFor(secret, random.value, threshold)
      ensures r.Failure? <==> random.None? && secret != []
      ensures r.Failure? ==> r.error == NoRandomSource
      ensures r.Success? ==> Values(r.value) == Split(secret, if random.Some? then random.value else [], total)
      ensures r.Success? ==> forall i :: 0 <= i < total ==> fresh(r.value[i].y)
      ensures r.Success? ==> forall i, j :: 0 <= i < j < total ==> r.value[i].y != r.value[j].y
    {
      hide Eval, ArePolynomials, Split;
      var polynomials := BuildPolynomials(secret, random);
      if polynomials.Failure? {
        return Failure(polynomials.error);
      }
      ghost var coins: seq<poly> := if random.Some? then random.value else [];
      var shares := EvaluateShares(polynomials.value, total, secret, coins);
      SplitIs(secret, coins, total, Values(shares));
      return Success(shares);
    }

    /** lines 233-235 and 306-307: byte `b` of the polynomial through the first shares, at `x` */
    method InterpolateByte(base: seq<Share>, b: nat, x: byte, ghost values: seq<ShareValue>) returns (r: byte)
      requires WellFormed(values) && 1 <= threshold <= |values| && b < |values[0].y|
      requires |base| == threshold && Values(base) == values[..threshold]
      ensures r == Eval(BytePoly(values, threshold, b), x)
    {
      hide Eval, Interpolant, XByte;
      PrefixDistinct(values, threshold);
      forall i | 0 <= i < threshold ensures base[i].y[..] == values[i].y && base[i].x == values[i].x {
        assert Values(base)[i] == values[i];
      }
      var points := PointsAt(base, b);
      assert PointXs(points) == Xs(values[..threshold]);
      assert PointYs(points) == Column(values[..threshold], b);
      var result := LagrangeInterpolation(points, x);
      return result.value;
    }

    /** lines 220-239 */
    method ReconstructSecret(shares: seq<Share>) returns (r: Result<seq<byte>, ShamirError>)
      requires Valid()
      ensures r.Success? <==> WellFormed(Values(shares)) && |shares| >= threshold
      ensures r.Success? ==> r.value == Reconstruction(Values(shares), threshold)
      ensures r.Failure? && WellFormed(Values(shares)) ==> r.error == NotEnoughShares
      ensures r.Failure? && !WellFormed(Values(shares)) ==> FirstFault(Values(shares), r.error)
    {
      hide Eval, BytePoly, XByte, FirstFault;
      var valid := ValidateShares(shares);
      if valid.Failure? {
        return Failure(valid.error);
      }
      if |shares| < threshold {
        return Failure(NotEnoughShares);
      }
      ghost var values := Values(shares);
      var activeShares := shares[..threshold];
      var shareLength := activeShares[0].y.Length;
      var secretBytes: seq<byte> := [];
      PrefixDistinct(values, threshold);
      for bytePos := 0 to shareLength
        invariant |secretBytes| == bytePos
        invariant forall b :: 0 <= b < bytePos ==> secretBytes[b] == Eval(BytePoly(values, threshold, b), 0)
      {
        var byteAtZero := InterpolateByte(activeShares, bytePos, 0, values);
        secretBytes := secretBytes + [byteAtZero];
      }
      return Success(secretBytes);
    }

    /** lines 306-307: what the polynomial of the first shares takes at `x` */
    method PredictByte(base: seq<Share>, b: nat, x: JsNumber, ghost values: seq<ShareValue>) returns (expected: byte)
      requires WellFormed(values) && 1 <= threshold <= |values| && b < |values[0].y|
      requires |base| == threshold && Values(base) == values[..threshold]
      ensures expected == Eval(BytePoly(values, threshold, b), XByte(x))
    {
      expected := InterpolateByte(base, b, XByte(x), values);
    }

    /** lines 305-310: the first byte of an extra share that is not what the first shares predict */
    method FindWrongByte(base: seq<Share>, extra: Share, e: nat, ghost values: seq<ShareValue>) returns (r: Option<nat>)
      requires WellFormed(values) && 1 <= threshold <= e < |values|
      requires |base| == threshold && Values(base) == values[..threshold]
      requires values[e] == ShareValue(extra.x, extra.y[..])
      ensures r.None? ==> forall b :: 0 <= b < |values[0].y| ==> Predicted(values, threshold, e, b)
      ensures r.Some? ==> r.value < |values[0].y| && !Predicted(values, threshold, e, r.value)
    {
      hide Eval, XByte, BytePoly;
      assert extra.y[..] == values[e].y;
      for b := 0 to extra.y.Length
        invariant forall c :: 0 <= c < b ==> Predicted(values, threshold, e, c)
      {
        var expected := PredictByte(base, b, extra.x, values);
        if expected != extra.y[b] {
          return Some(b);
        }
      }
      return None;
    }

    /**
     * lines 293-313. `Consistent` speaks of all polynomials; the loops only
     * interpolate the first `threshold` shares and compare the rest.
     */
    method VerifyShares(shares: seq<Share>) returns (ok: bool)
      requires Valid()
      ensures ok <==> WellFormed(Values(shares)) && |shares| >= threshold && Consistent(Values(shares), threshold)
    {
      hide Eval, Interpolant, XByte, OnPoly, ByteConsistent, BytePoly;
      var valid := ValidateShares(shares);
      if valid.Failure? {
        return false;
      }
      if |shares| < threshold {
        return false;
      }
      ghost var values := Values(shares);
      var base := shares[..threshold];
      var len := base[0].y.Length;
      for e := threshold to |shares|
        invariant forall k, b :: threshold <= k < e && 0 <= b < len ==> Predicted(values, threshold, k, b)
      {
        var wrong := FindWrongByte(base, shares[e], e, values);
        if wrong.Some? {
          ConsistentIffPredicted(values, threshold, wrong.value);
          assert !ByteConsistent(values, threshold, wrong.value);
          return false;
        }
      }
      forall b | 0 <= b < len ensures ByteConsistent(values, threshold, b) {
        ConsistentIffPredicted(values, threshold, b);
      }
      return true;
    }
  }

  /** Byte `b` of share `k` is what the first `threshold` shares predict. */
  ghost predicate Predicted(shares: seq<ShareValue>, threshold: nat, k: nat, b: nat)
    requires threshold <= |shares| && k < |shares|
    requires forall i :: 0 <= i < |shares| ==> b < |shares[i].y|
  {
    Eval(BytePoly(shares, threshold, b), XByte(shares[k].x)) == shares[k].y[b]
  }

  lemma ConsistentIffPredicted(shares: seq<ShareValue>, threshold: nat, b: nat)
    requires WellFormed(shares) && threshold <= |shares| && b < |shares[0].y|
    ensures ByteConsistent(shares, threshold, b)
       <==> forall k :: threshold <= k < |shares| ==> Predicted(shares, threshold, k, b)
  {
    hide Eval, Interpolant, XByte;
    var base, p := shares[..threshold], BytePoly(shares, threshold, b);
    if ByteConsistent(shares, threshold, b) {
      var q: poly :| |q| == threshold && OnPoly(q, shares, b);
      BytePolyIs(shares, threshold, b, q);
      forall k | threshold <= k < |shares| ensures Predicted(shares, threshold, k, b) {
        assert Eval(q, Xs(shares)[k]) == Column(shares, b)[k];
      }
    }
    if forall k :: threshold <= k < |shares| ==> Predicted(shares, threshold, k, b) {
      PrefixDistinct(shares, threshold);
      InterpolantLaw(Xs(base), Column(base, b));
      forall i | 0 <= i < |shares| ensures Eval(p, Xs(shares)[i]) == Column(shares, b)[i] {
        if i < threshold {
          assert Eval(p, Xs(base)[i]) == Column(base, b)[i];
        } else {
          assert Predicted(shares, threshold, i, b);
        }
      }
      assert OnPoly(p, shares, b);
    }
  }

  function PointsAt(shares: seq<Share>, b: nat): (points: seq<Point>)
    requires forall i :: 0 <= i < |shares| ==> b < shares[i].y.Length
    reads set i | 0 <= i < |shares| :: shares[i].y
    ensures |points| == |shares|
    ensures forall i :: 0 <= i < |shares| ==> points[i] == Point(XByte(shares[i].x), shares[i].y[b])
  {
    seq(|shares|, i requires 0 <= i < |shares| && b < shares[i].y.Length
                    reads set i | 0 <= i < |shares| :: shares[i].y
                    => Point(XByte(shares[i].x), shares[i].y[b]))
  }

  // ---- the exported helpers ----

  lemma {:induction false} PigeonHole(xs: seq<int>, n: nat)
    requires forall i :: 0 <= i < |xs| ==> 1 <= xs[i] <= n
    requires forall i, j :: 0 <= i < j < |xs| ==> xs[i] != xs[j]
    ensures |xs| <= n
    decreases n
  {
    if xs != [] {
      var x := xs[0];
      if n == 0 {
        assert false;
      } else if n in xs {
        var k :| 0 <= k < |xs| && xs[k] == n;
        PigeonHole(xs[..k] + xs[k + 1..], n - 1);
      } else {
        PigeonHole(xs, n - 1);
      }
    }
  }

  lemma AtMost255(shares: seq<ShareValue>)
    requires WellFormed(shares)
    ensures |shares| <= 255
  {
    PigeonHole(seq(|shares|, i requires 0 <= i < |shares| => if InRange(shares[i].x) then shares[i].x.value else 0), 255);
  }

  /**
   * lines 331-339. The total is inferred from the shares, so its own bound adds
   * no refusal: more than 255 shares are never well formed.
   */
  method ReconstructSecretBytes(shares: seq<Share>, threshold: JsNumber) returns (r: Result<seq<byte>, ShamirError>)
    ensures r.Success? <==>
              threshold.Integer? && 1 <= threshold.value <= |shares| && WellFormed(Values(shares))
    ensures r.Success? ==> r.value == Reconstruction(Values(shares), threshold.value)
    ensures r.Failure? && threshold.Integer? && 1 <= threshold.value <= |shares| <= 255 ==>
              FirstFault(Values(shares), r.error)
    ensures threshold.Integer? && 1 <= threshold.value <= |shares| && |shares| > 255 ==> r == Failure(TooManyShares)
  {
    if WellFormed(Values(shares)) {
      AtMost255(Values(shares));
    }
    var totalShares :=
      if threshold.Integer? then Integer(if |shares| > threshold.value then |shares| else threshold.value)
      else NotAnInteger;
    var sss := Scheme.Create(threshold, totalShares);
    if sss.Failure? {
      return Failure(sss.error);
    }
    r := sss.value.ReconstructSecret(shares);
  }
}

/**
 * What fewer than `threshold` shares say about the secret: nothing. Every candidate
 * secret explains them by equally many coefficient choices: `threshold - 1` shares
 * by exactly one, and fewer by choices that correspond one to one.
 */
module Secrecy {
  import opened Field
  import opened Polynomials
  import opened Shamir

  lemma WithZero(xs: seq<byte>)
    requires Distinct(xs) && 0 !in xs
    ensures Distinct([0] + xs)
  {}

  lemma ThroughZero(secret: byte, xs: seq<byte>, ys: seq<byte>, coins: poly)
    requires |xs| == |ys|
    ensures Through([secret] + coins, [0] + xs, [secret] + ys) <==> Through([secret] + coins, xs, ys)
  {
    EvalAtZero([secret] + coins);
    hide Eval;
    var p, zs, vs := [secret] + coins, [0] + xs, [secret] + ys;
    if Through(p, xs, ys) {
      forall i | 0 <= i < |zs| ensures Eval(p, zs[i]) == vs[i] {
        if i > 0 { assert Eval(p, xs[i - 1]) == ys[i - 1]; }
      }
    }
    if Through(p, zs, vs) {
      forall i | 0 <= i < |xs| ensures Eval(p, xs[i]) == ys[i] { assert Eval(p, zs[i + 1]) == vs[i + 1]; }
    }
  }

  /**
   * For any distinct nonzero points and any values there, and any secret byte,
   * exactly one choice of as many coefficients fits.
   */
  lemma OneCoefficientList(secret: byte, xs: seq<byte>, ys: seq<byte>) returns (coins: poly)
    requires |xs| == |ys| && Distinct(xs) && 0 !in xs
    ensures |coins| == |xs| && Through([secret] + coins, xs, ys)
    ensures forall other: poly :: |other| == |xs| && Through([secret] + other, xs, ys) ==> other == coins
  {
    hide Eval, Interpolant, Distinct, Lagrange, Through;
    var zs, vs := [0] + xs, [secret] + ys;
    var p := Interpolant(zs, vs);
    WithZero(xs);
    InterpolantLaw(zs, vs);
    EvalAtZero(p);
    ValueAt(p, zs, vs, 0);
    coins := p[1..];
    assert p == [secret] + coins;
    ThroughZero(secret, xs, ys, coins);
    forall other: poly | |other| == |xs| && Through([secret] + other, xs, ys) ensures other == coins {
      ThroughZero(secret, xs, ys, other);
      assert [secret] + other == p;
      assert ([secret] + other)[1..] == other;
    }
  }

  lemma ValueAt(p: poly, xs: seq<byte>, ys: seq<byte>, i: nat)
    requires |xs| == |ys| && i < |xs| && Through(p, xs, ys)
    ensures Eval(p, xs[i]) == ys[i]
  {}

  /** The shares a coalition holds: those at the given x values. */
  function View(secret: seq<byte>, coins: seq<poly>, coalition: seq<int>): (shares: seq<ShareValue>)
    requires |coins| == |secret|
    requires forall i :: 0 <= i < |coalition| ==> 1 <= coalition[i] <= 255
    ensures |shares| == |coalition|
  {
    seq(|coalition|, i requires 0 <= i < |coalition| => ShareAt(secret, coins, coalition[i]))
  }

  ghost predicate IsCoalition(coalition: seq<int>) {
    && (forall i :: 0 <= i < |coalition| ==> 1 <= coalition[i] <= 255)
    && (forall i, j :: 0 <= i < j < |coalition| ==> coalition[i] != coalition[j])
  }

  function CoalitionXs(coalition: seq<int>): (xs: seq<byte>)
    requires forall i :: 0 <= i < |coalition| ==> 1 <= coalition[i] <= 255
    ensures |xs| == |coalition|
  {
    seq(|coalition|, i requires 0 <= i < |coalition| => coalition[i] as byte)
  }

  lemma CoalitionDistinct(coalition: seq<int>)
    requires IsCoalition(coalition)
    ensures Distinct(CoalitionXs(coalition)) && 0 !in CoalitionXs(coalition)
  {
    forall i | 0 <= i < |coalition| ensures CoalitionXs(coalition)[i] as int == coalition[i] {
      ByteOfInt(coalition[i]);
    }
    ByteOfInt(0);
    assert forall i :: 0 <= i < |coalition| ==> CoalitionXs(coalition)[i] as int != 0;
    forall i, j | 0 <= i < j < |coalition| ensures CoalitionXs(coalition)[i] != CoalitionXs(coalition)[j] {
      assert CoalitionXs(coalition)[i] as int != CoalitionXs(coalition)[j] as int;
    }
  }

  /** The values of byte `b` a coalition sees. */
  function Seen(secret: seq<byte>, coins: seq<poly>, coalition: seq<int>, b: nat): (ys: seq<byte>)
    requires |coins| == |secret| && b < |secret|
    requires forall i :: 0 <= i < |coalition| ==> 1 <= coalition[i] <= 255
    ensures |ys| == |coalition|
  {
    seq(|coalition|, i requires 0 <= i < |coalition| => Eval([secret[b]] + coins[b], coalition[i] as byte))
  }

  lemma SameShareIff(secret: seq<byte>, coins: seq<poly>, guess: seq<byte>, coins': seq<poly>, x: int)
    requires |coins| == |secret| == |guess| == |coins'| && 1 <= x <= 255
    ensures ShareAt(guess, coins', x) == ShareAt(secret, coins, x)
       <==> forall b :: 0 <= b < |secret| ==> Eval([guess[b]] + coins'[b], x as byte) == Eval([secret[b]] + coins[b], x as byte)
  {
    hide Eval;
    var y, y' := ShareAt(secret, coins, x).y, ShareAt(guess, coins', x).y;
    assert forall b :: 0 <= b < |secret| ==> y[b] == Eval([secret[b]] + coins[b], x as byte);
    assert forall b :: 0 <= b < |secret| ==> y'[b] == Eval([guess[b]] + coins'[b], x as byte);
  }

  lemma SameViewIffShares(secret: seq<byte>, coins: seq<poly>, guess: seq<byte>, coins': seq<poly>, coalition: seq<int>)
    requires |coins| == |secret| == |guess| == |coins'|
    requires forall i :: 0 <= i < |coalition| ==> 1 <= coalition[i] <= 255
    ensures View(guess, coins', coalition) == View(secret, coins, coalition)
       <==> forall i :: 0 <= i < |coalition| ==> ShareAt(guess, coins', coalition[i]) == ShareAt(secret, coins, coalition[i])
  {
    hide ShareAt;
    var v, v' := View(secret, coins, coalition), View(guess, coins', coalition);
    assert forall i :: 0 <= i < |coalition| ==> v[i] == ShareAt(secret, coins, coalition[i]);
    assert forall i :: 0 <= i < |coalition| ==> v'[i] == ShareAt(guess, coins', coalition[i]);
  }

  /** Equal views are equal values at every byte. */
  lemma SameViewIffSeen(secret: seq<byte>, coins: seq<poly>, guess: seq<byte>, coins': seq<poly>, coalition: seq<int>)
    requires |coins| == |secret| == |guess| == |coins'|
    requires forall i :: 0 <= i < |coalition| ==> 1 <= coalition[i] <= 255
    ensures View(guess, coins', coalition) == View(secret, coins, coalition)
       <==> forall b :: 0 <= b < |secret| ==>
              Through([guess[b]] + coins'[b], CoalitionXs(coalition), Seen(secret, coins, coalition, b))
  {
    hide Eval, ShareAt, View;
    SameViewIffShares(secret, coins, guess, coins', coalition);
    forall i | 0 <= i < |coalition|
      ensures ShareAt(guess, coins', coalition[i]) == ShareAt(secret, coins, coalition[i])
         <==> forall b :: 0 <= b < |secret| ==>
                Eval([guess[b]] + coins'[b], CoalitionXs(coalition)[i]) == Seen(secret, coins, coalition, b)[i]
    {
      SameShareIff(secret, coins, guess, coins', coalition[i]);
    }
  }

  /** For each byte of `guess` the one coefficient list that fits the row of values seen. */
  lemma Fitting(guess: seq<byte>, xs: seq<byte>, rows: seq<seq<byte>>) returns (coins: seq<poly>)
    requires |rows| == |guess| && Distinct(xs) && 0 !in xs
    requires forall b :: 0 <= b < |rows| ==> |rows[b]| == |xs|
    ensures |coins| == |guess|
    ensures forall b :: 0 <= b < |coins| ==> |coins[b]| == |xs| && Through([guess[b]] + coins[b], xs, rows[b])
    ensures forall b, other: poly ::
              0 <= b < |coins| && |other| == |xs| && Through([guess[b]] + other, xs, rows[b]) ==> other == coins[b]
  {
    hide Through, Distinct;
    coins := [];
    while |coins| < |guess|
      invariant |coins| <= |guess|
      invariant forall b :: 0 <= b < |coins| ==> |coins[b]| == |xs| && Through([guess[b]] + coins[b], xs, rows[b])
      invariant forall b, other: poly ::
                  0 <= b < |coins| && |other| == |xs| && Through([guess[b]] + other, xs, rows[b]) ==> other == coins[b]
    {
      var one := OneCoefficientList(guess[|coins|], xs, rows[|coins|]);
      coins := coins + [one];
    }
  }

  /**
   * Whatever the secret, its coefficients and the `threshold - 1` members of a
   * coalition: for every other secret of that length exactly one choice of
   * coefficients gives the coalition the very shares it holds.
   */
  lemma CoalitionLearnsNothing(
    secret: seq<byte>, coins: seq<poly>, threshold: nat, coalition: seq<int>, guess: seq<byte>)
    returns (coins': seq<poly>)
    requires threshold >= 1 && CoinsFor(secret, coins, threshold)
    requires IsCoalition(coalition) && |coalition| == threshold - 1
    requires |guess| == |secret|
    ensures CoinsFor(guess, coins', threshold) && View(guess, coins', coalition) == View(secret, coins, coalition)
    ensures forall other: seq<poly> :: CoinsFor(guess, other, threshold)
                && View(guess, other, coalition) == View(secret, coins, coalition)
              ==> other == coins'
  {
    hide Eval, Through, Distinct, Seen, View;
    var xs := CoalitionXs(coalition);
    CoalitionDistinct(coalition);
    var rows := seq(|secret|, b requires 0 <= b < |secret| => Seen(secret, coins, coalition, b));
    coins' := Fitting(guess, xs, rows);
    SameViewIffSeen(secret, coins, guess, coins', coalition);
    forall other: seq<poly> | CoinsFor(guess, other, threshold)
        && View(guess, other, coalition) == View(secret, coins, coalition)
      ensures other == coins'
    {
      SameViewIffSeen(secret, coins, guess, other, coalition);
      forall b | 0 <= b < |secret| ensures other[b] == coins'[b] {
        assert Through([guess[b]] + other[b], xs, rows[b]);
      }
    }
  }

  // ---- any coalition below the threshold ----

  lemma {:induction false} EvalPadded(p: poly, n: nat, x: byte)
    ensures Eval(p + seq(n, _ => 0), x) == Eval(p, x)
  {
    var zeros := seq(n, _ => 0 as byte);
    if n == 0 {
      assert p + zeros == p;
    } else {
      var fewer := seq(n - 1, _ => 0 as byte);
      assert p + zeros == (p + fewer) + [0];
      EvalPadded(p, n - 1, x);
      EvalPad(p + fewer, x);
    }
  }

  /** `mask` with this constant term in front is zero at `x`. */
  predicate Vanishes(difference: byte, mask: poly, x: byte) { Eval([difference] + mask, x) == 0 }

  /** Some coefficients make a polynomial with a given constant term vanish on up to as many points. */
  lemma MaskExists(difference: byte, xs: seq<byte>, n: nat) returns (mask: poly)
    requires |xs| <= n && Distinct(xs) && 0 !in xs
    ensures |mask| == n && forall i :: 0 <= i < |xs| ==> Vanishes(difference, mask, xs[i])
  {
    hide Eval, Distinct;
    var ys, zeros := seq(|xs|, _ => 0 as byte), seq(n - |xs|, _ => 0 as byte);
    var fitting := OneCoefficientList(difference, xs, ys);
    mask := fitting + zeros;
    forall i | 0 <= i < |xs| ensures Vanishes(difference, mask, xs[i]) {
      assert Eval([difference] + fitting, xs[i]) == ys[i];
      EvalPadded([difference] + fitting, n - |xs|, xs[i]);
      assert [difference] + mask == ([difference] + fitting) + zeros;
    }
  }

  /** Adding a mask changes the constant term and no value at a point where it vanishes. */
  lemma MaskKeeps(secret: byte, guess: byte, coins: poly, mask: poly, x: byte)
    requires |coins| == |mask| && Vanishes(Add(secret, guess), mask, x)
    ensures Eval([guess] + Plus(coins, mask), x) == Eval([secret] + coins, x)
  {
    AddTwice(secret, guess);
    hide Add, Eval;
    var p, m := [secret] + coins, [Add(secret, guess)] + mask;
    EvalPlus(p, m, x);
    AddZero(Eval(p, x));
    assert p[1..] == coins && m[1..] == mask;
    assert Plus(p, m) == [guess] + Plus(coins, mask);
  }

  lemma AddTwice(a: byte, b: byte)
    ensures Add(a, Add(a, b)) == b && Add(Add(b, a), a) == b
  {}

  lemma PlusTwice(p: poly, m: poly)
    requires |p| == |m|
    ensures Plus(Plus(p, m), m) == p
  {
    hide Add;
    forall i | 0 <= i < |p| ensures Plus(Plus(p, m), m)[i] == p[i] {
      AddTwice(m[i], p[i]);
    }
  }

  /** The coefficients with the masks added, byte by byte. */
  function Masked(coins: seq<poly>, masks: seq<poly>): (masked: seq<poly>)
    requires |coins| == |masks| && forall b :: 0 <= b < |coins| ==> |coins[b]| == |masks[b]|
    ensures |masked| == |coins| && forall b :: 0 <= b < |coins| ==> |masked[b]| == |coins[b]|
    ensures forall b :: 0 <= b < |coins| ==> masked[b] == Plus(coins[b], masks[b])
  {
    seq(|coins|, b requires 0 <= b < |coins| => Plus(coins[b], masks[b]))
  }

  /** Adding the masks turns choices for one secret into choices for the other with the same view. */
  ghost predicate Exchanges(masks: seq<poly>, secret: seq<byte>, guess: seq<byte>, threshold: nat, coalition: seq<int>)
    requires |masks| == |secret| == |guess| && IsCoalition(coalition)
    requires forall b :: 0 <= b < |masks| ==> |masks[b]| + 1 == threshold
  {
    forall coins :: CoinsFor(secret, coins, threshold) ==>
      && CoinsFor(guess, Masked(coins, masks), threshold)
      && Masked(Masked(coins, masks), masks) == coins
      && View(guess, Masked(coins, masks), coalition) == View(secret, coins, coalition)
  }

  lemma MasksExchange(masks: seq<poly>, secret: seq<byte>, guess: seq<byte>, threshold: nat, coalition: seq<int>)
    requires |masks| == |secret| == |guess| && IsCoalition(coalition)
    requires forall b :: 0 <= b < |masks| ==> |masks[b]| + 1 == threshold
    requires forall b, i :: 0 <= b < |masks| && 0 <= i < |coalition| ==>
               Vanishes(Add(secret[b], guess[b]), masks[b], CoalitionXs(coalition)[i])
    ensures Exchanges(masks, secret, guess, threshold, coalition)
  {
    hide Eval, Vanishes, Plus, Add;
    forall coins | CoinsFor(secret, coins, threshold)
      ensures CoinsFor(guess, Masked(coins, masks), threshold)
      ensures Masked(Masked(coins, masks), masks) == coins
      ensures View(guess, Masked(coins, masks), coalition) == View(secret, coins, coalition)
    {
      forall b | 0 <= b < |secret|
        ensures Masked(Masked(coins, masks), masks)[b] == coins[b]
        ensures Through([guess[b]] + Masked(coins, masks)[b], CoalitionXs(coalition), Seen(secret, coins, coalition, b))
      {
        PlusTwice(coins[b], masks[b]);
        forall i | 0 <= i < |coalition| {
          MaskKeeps(secret[b], guess[b], coins[b], masks[b], CoalitionXs(coalition)[i]);
        }
      }
      SameViewIffSeen(secret, coins, guess, Masked(coins, masks), coalition);
    }
  }

  /**
   * For every coalition smaller than the threshold and any two secrets of one
   * length some masks, added to the coefficients, exchange the two: each choice for
   * the one becomes a choice for the other that gives the coalition the very same
   * shares, and adding them again leads back. So what the coalition holds is
   * explained by both secrets in equally many ways.
   */
  lemma AnyCoalitionLearnsNothing(secret: seq<byte>, threshold: nat, coalition: seq<int>, guess: seq<byte>)
    returns (masks: seq<poly>)
    requires IsCoalition(coalition) && |coalition| < threshold && |guess| == |secret|
    ensures |masks| == |secret| && forall b :: 0 <= b < |masks| ==> |masks[b]| + 1 == threshold
    ensures Exchanges(masks, secret, guess, threshold, coalition)
    ensures Exchanges(masks, guess, secret, threshold, coalition)
  {
    hide Eval, Vanishes, Exchanges, Add;
    CoalitionDistinct(coalition);
    masks := [];
    while |masks| < |secret|
      invariant |masks| <= |secret| && forall b :: 0 <= b < |masks| ==> |masks[b]| + 1 == threshold
      invariant forall b, i :: 0 <= b < |masks| && 0 <= i < |coalition| ==>
                  Vanishes(Add(secret[b], guess[b]), masks[b], CoalitionXs(coalition)[i])
    {
      var b := |masks|;
      var mask := MaskExists(Add(secret[b], guess[b]), CoalitionXs(coalition), threshold - 1);
      masks := masks + [mask];
    }
    forall b | 0 <= b < |secret| ensures Add(secret[b], guess[b]) == Add(guess[b], secret[b]) {
      AddCommutes(secret[b], guess[b]);
    }
    MasksExchange(masks, secret, guess, threshold, coalition);
    MasksExchange(masks, guess, secret, threshold, coalition);
  }
}

/**
 * The exhaustive searches of scripts/keyshare-leak-tripwire.js: the subset
 * generator, the base-8 odometer, and what finding nothing then means.
 */
module LeakSearch {
  import opened Wrappers
  import opened Field
  import opened Shamir
  import Polynomials
  import GF256
  import opened Tripwire

  // ---- the subset generator ----

  /** A choice of positions from `lo` to below `n`, in increasing order. */
  ghost predicate IsChoice(l: seq<nat>, lo: nat, n: nat) {
    && (forall i :: 0 <= i < |l| ==> lo <= l[i] < n)
    && (forall i, j :: 0 <= i < j < |l| ==> l[i] < l[j])
  }

  function Prefixed(i: nat, lists: seq<seq<nat>>): (r: seq<seq<nat>>)
    ensures |r| == |lists| && forall k :: 0 <= k < |r| ==> r[k] == [i] + lists[k]
  {
    seq(|lists|, k requires 0 <= k < |lists| => [i] + lists[k])
  }

  /** The choices of `size` positions from `start` on, in the generator's order. */
  function Choices(n: nat, start: nat, size: nat): seq<seq<nat>>
    decreases n - start, size
  {
    if size == 0 then [[]]
    else if start >= n then []
    else Prefixed(start, Choices(n, start + 1, size - 1)) + Choices(n, start + 1, size)
  }

  function ChoicesUpTo(n: nat, limit: nat): seq<seq<nat>> {
    if limit == 0 then [] else ChoicesUpTo(n, limit - 1) + Choices(n, 0, limit)
  }

  lemma {:induction false} ChoicesSound(n: nat, start: nat, size: nat)
    ensures forall k :: 0 <= k < |Choices(n, start, size)| ==>
              |Choices(n, start, size)[k]| == size && IsChoice(Choices(n, start, size)[k], start, n)
    decreases n - start, size
  {
    if size > 0 && start < n {
      ChoicesSound(n, start + 1, size - 1);
      ChoicesSound(n, start + 1, size);
    }
  }

  lemma ChoicesUnfold(n: nat, start: nat, size: nat)
    requires size > 0 && start < n
    ensures Choices(n, start, size) == Prefixed(start, Choices(n, start + 1, size - 1)) + Choices(n, start + 1, size)
  {}

  lemma Chosen(n: nat, start: nat, tail: seq<nat>)
    ensures [] in Choices(n, start, 0)
    ensures start < n && tail in Choices(n, start + 1, |tail|) ==> [start] + tail in Choices(n, start, |tail| + 1)
    ensures start < n && tail != [] && tail in Choices(n, start + 1, |tail|) ==> tail in Choices(n, start, |tail|)
  {
    if start < n && tail in Choices(n, start + 1, |tail|) {
      var lists := Choices(n, start + 1, |tail|);
      var k :| 0 <= k < |lists| && lists[k] == tail;
      assert Prefixed(start, lists)[k] == [start] + tail;
    }
  }

  lemma ChoiceTail(l: seq<nat>, lo: nat, n: nat)
    requires IsChoice(l, lo, n) && l != []
    ensures lo <= l[0] < n && IsChoice(l[1..], lo + 1, n) && [l[0]] + l[1..] == l
    ensures l[0] != lo ==> IsChoice(l, lo + 1, n)
  {}

  lemma {:induction false} ChoicesComplete(n: nat, start: nat, l: seq<nat>)
    requires IsChoice(l, start, n)
    ensures l in Choices(n, start, |l|)
    decreases n - start, |l|
  {
    hide *;
    if l == [] {
      Chosen(n, start, []);
    } else {
      ChoiceTail(l, start, n);
      if l[0] == start {
        ChoicesComplete(n, start + 1, l[1..]);
        Chosen(n, start, l[1..]);
      } else {
        ChoicesComplete(n, start + 1, l);
        Chosen(n, start, l);
      }
    }
  }

  lemma {:induction false} ChoicesNoRepeats(n: nat, start: nat, size: nat)
    ensures NoRepeats(Choices(n, start, size))
    decreases n - start, size
  {
    if size > 0 && start < n {
      var withStart, without := Choices(n, start + 1, size - 1), Choices(n, start + 1, size);
      ChoicesNoRepeats(n, start + 1, size - 1);
      ChoicesNoRepeats(n, start + 1, size);
      ChoicesSound(n, start + 1, size);
      var first := Prefixed(start, withStart);
      assert Choices(n, start, size) == first + without;
      forall i, j | 0 <= i < j < |first| ensures first[i] != first[j] {
        assert first[i][1..] == withStart[i] && first[j][1..] == withStart[j];
      }
      forall i, j | 0 <= i < |first| && 0 <= j < |without| ensures first[i] != without[j] {
        assert first[i][0] == start && start + 1 <= without[j][0];
      }
    }
  }

  /** Every choice of the size is produced, nothing else is, and none is repeated. */
  lemma ChoicesExact(n: nat, start: nat, size: nat)
    ensures forall l :: l in Choices(n, start, size) <==> |l| == size && IsChoice(l, start, n)
    ensures NoRepeats(Choices(n, start, size))
  {
    ChoicesSound(n, start, size);
    ChoicesNoRepeats(n, start, size);
    forall l: seq<nat> | |l| == size && IsChoice(l, start, n) ensures l in Choices(n, start, size) {
      ChoicesComplete(n, start, l);
    }
  }

  lemma JoinedExact(a: seq<seq<nat>>, b: seq<seq<nat>>)
    requires NoRepeats(a) && NoRepeats(b) && forall l :: l in a ==> l !in b
    ensures NoRepeats(a + b)
    ensures forall l :: l in a + b <==> l in a || l in b
  {
    forall i, j | 0 <= i < j < |a + b| ensures (a + b)[i] != (a + b)[j] {
      if i < |a| <= j { assert a[i] in a && b[j - |a|] in b; }
    }
  }

  lemma NothingUpTo(n: nat)
    ensures ChoicesUpTo(n, 0) == [] && NoRepeats(ChoicesUpTo(n, 0))
  {}

  lemma {:induction false} ChoicesUpToExact(n: nat, limit: nat)
    ensures forall l :: l in ChoicesUpTo(n, limit) <==> 1 <= |l| <= limit && IsChoice(l, 0, n)
    ensures NoRepeats(ChoicesUpTo(n, limit))
  {
    hide *;
    if limit > 0 {
      ChoicesUpToExact(n, limit - 1);
      ChoicesExact(n, 0, limit);
      JoinedExact(ChoicesUpTo(n, limit - 1), Choices(n, 0, limit));
      UpToStep(n, limit);
    } else {
      NothingUpTo(n);
    }
  }

  function Pick<T>(arr: seq<T>, l: seq<nat>): (r: seq<T>)
    requires forall i :: 0 <= i < |l| ==> l[i] < |arr|
    ensures |r| == |l| && forall i :: 0 <= i < |l| ==> r[i] == arr[l[i]]
  {
    seq(|l|, i requires 0 <= i < |l| => arr[l[i]])
  }

  ghost predicate InBounds(lists: seq<seq<nat>>, n: nat) {
    forall k, i :: 0 <= k < |lists| && 0 <= i < |lists[k]| ==> lists[k][i] < n
  }

  ghost function Picked<T>(arr: seq<T>, acc: seq<T>, lists: seq<seq<nat>>): (r: seq<seq<T>>)
    requires InBounds(lists, |arr|)
    ensures |r| == |lists| && forall k :: 0 <= k < |r| ==> r[k] == acc + Pick(arr, lists[k])
  {
    seq(|lists|, k requires 0 <= k < |lists| => acc + Pick(arr, lists[k]))
  }

  lemma PickedGrows<T>(arr: seq<T>, acc: seq<T>, before: seq<seq<nat>>, i: nat, tails: seq<seq<nat>>)
    requires i < |arr| && InBounds(before, |arr|) && InBounds(tails, |arr|)
    ensures InBounds(before + Prefixed(i, tails), |arr|)
    ensures Picked(arr, acc, before + Prefixed(i, tails))
         == Picked(arr, acc, before) + Picked(arr, acc + [arr[i]], tails)
  {
    var all := before + Prefixed(i, tails);
    forall k, m | 0 <= k < |all| && 0 <= m < |all[k]| ensures all[k][m] < |arr| {
      if k >= |before| && m > 0 { assert all[k][m] == tails[k - |before|][m - 1]; }
    }
    forall k | 0 <= k < |tails|
      ensures acc + Pick(arr, [i] + tails[k]) == (acc + [arr[i]]) + Pick(arr, tails[k])
    {}
  }

  lemma PickedNone<T>(arr: seq<T>, acc: seq<T>, start: nat)
    ensures InBounds(Choices(|arr|, start, 0), |arr|)
    ensures Picked(arr, acc, Choices(|arr|, start, 0)) == [acc]
  {
    assert acc + Pick(arr, []) == acc;
  }

  lemma PickedStart<T>(arr: seq<T>, acc: seq<T>, k: nat)
    ensures InBounds([], |arr|) && Picked(arr, acc, []) == []
    ensures k > 0 ==> Choices(|arr|, |arr|, k) == []
  {}

  /** lines 96-106: the inner generator; `acc` grows and shrinks along the way */
  method Extend<T>(arr: seq<T>, start: nat, size: nat, acc: seq<T>) returns (out: seq<seq<T>>)
    requires start <= |arr| && |acc| <= size
    ensures InBounds(Choices(|arr|, start, size - |acc|), |arr|)
    ensures out == Picked(arr, acc, Choices(|arr|, start, size - |acc|))
    decreases |arr| - start
  {
    hide Pick, Prefixed, Choices, Picked, InBounds;
    var n := |arr|;
    ghost var k := size - |acc|;
    if |acc| == size {
      PickedNone(arr, acc, start);
      return [acc];
    }
    out := [];
    PickedStart(arr, acc, k);
    ghost var before: seq<seq<nat>> := [];
    for i := start to n
      invariant Choices(n, start, k) == before + Choices(n, i, k)
      invariant InBounds(before, n)
      invariant out == Picked(arr, acc, before)
    {
      var found := Extend(arr, i + 1, size, acc + [arr[i]]);
      PickedGrows(arr, acc, before, i, Choices(n, i + 1, k - 1));
      out := out + found;
      ghost var first := Prefixed(i, Choices(n, i + 1, k - 1));
      ChoicesUnfold(n, i, k);
      assert before + (first + Choices(n, i + 1, k)) == (before + first) + Choices(n, i + 1, k);
      before := before + first;
    }
    assert Choices(n, start, k) == before;
  }

  lemma UpToStep(n: nat, size: nat)
    requires size > 0
    ensures ChoicesUpTo(n, size) == ChoicesUpTo(n, size - 1) + Choices(n, 0, size)
    ensures ChoicesUpTo(n, 0) == []
  {}

  /** Every non-empty choice of up to `maxSize` positions, smaller ones first. */
  function AllChoices(n: nat, maxSize: nat): seq<seq<nat>> { ChoicesUpTo(n, if maxSize < n then maxSize else n) }

  /** lines 93-108 */
  method Subsets<T>(arr: seq<T>, maxSize: nat) returns (out: seq<seq<T>>)
    ensures InBounds(AllChoices(|arr|, maxSize), |arr|)
    ensures out == Picked(arr, [], AllChoices(|arr|, maxSize))
    ensures forall l :: l in AllChoices(|arr|, maxSize) <==> 1 <= |l| <= maxSize && IsChoice(l, 0, |arr|)
    ensures NoRepeats(AllChoices(|arr|, maxSize))
  {
    hide Pick, Choices, ChoicesUpTo, NoRepeats, IsChoice;
    var n := |arr|;
    var limit := if maxSize < n then maxSize else n;
    out := [];
    UpToStep(n, 1);
    for size := 1 to limit + 1
      invariant InBounds(ChoicesUpTo(n, size - 1), n)
      invariant out == Picked(arr, [], ChoicesUpTo(n, size - 1))
    {
      var found := Extend(arr, 0, size, []);
      UpToStep(n, size);
      out := out + found;
    }
    AllChoicesExact(n, maxSize);
  }

  /** Each non-empty choice within the bound occurs, exactly once, and nothing else does. */
  lemma AllChoicesExact(n: nat, maxSize: nat)
    ensures forall l :: l in AllChoices(n, maxSize) <==> 1 <= |l| <= maxSize && IsChoice(l, 0, n)
    ensures NoRepeats(AllChoices(n, maxSize))
  {
    ChoicesUpToExact(n, if maxSize < n then maxSize else n);
    forall l: seq<nat> | IsChoice(l, 0, n) ensures |l| <= n {
      ChoiceLength(l, 0, n);
    }
  }

  lemma {:induction false} ChoiceLength(l: seq<nat>, lo: nat, n: nat)
    requires IsChoice(l, lo, n) && lo <= n
    ensures |l| <= n - lo
    decreases |l|
  {
    if l != [] {
      ChoiceLength(l[1..], l[0] + 1, n);
    }
  }

  lemma SubsetAt<T>(arr: seq<T>, maxSize: nat, lists: seq<seq<nat>>, s: nat)
    requires InBounds(lists, |arr|) && s < |lists|
    requires forall l :: l in lists <==> 1 <= |l| <= maxSize && IsChoice(l, 0, |arr|)
    ensures 1 <= |lists[s]| <= maxSize && IsChoice(lists[s], 0, |arr|)
    ensures forall i :: 0 <= i < |lists[s]| ==> lists[s][i] < |arr|
    ensures Picked(arr, [], lists)[s] == Pick(arr, lists[s])
  {
    hide IsChoice;
    assert lists[s] in lists;
    assert [] + Pick(arr, lists[s]) == Pick(arr, lists[s]);
  }

  // ---- explicit shares ----

  /** lines 87-91 */
  method Eq(a: Option<seq<byte>>, b: seq<byte>) returns (same: bool)
    ensures same <==> a == Some(b)
  {
    if a.None? || |a.value| != |b| {
      return false;
    }
    for i := 0 to |b|
      invariant a.value[..i] == b[..i]
    {
      if a.value[i] != b[i] {
        return false;
      }
    }
    assert a.value[..|b|] == a.value && b[..|b|] == b;
    return true;
  }

  ghost predicate Reveals(points: seq<Candidate>, key: seq<byte>) {
    points != [] && AtZero(points) == Some(key)
  }

  ghost predicate ChoiceReveals(explicit: seq<Candidate>, key: seq<byte>, l: seq<nat>) {
    1 <= |l| <= MAX_EXPLICIT_SUBSET && IsChoice(l, 0, |explicit|) && Reveals(Pick(explicit, l), key)
  }

  /** lines 167-171: reports a leak exactly when some subset of up to 8 explicit shares gives the key */
  method ExplicitLeak(explicit: seq<Candidate>, key: seq<byte>) returns (how: Option<seq<Candidate>>)
    ensures how.Some? <==> exists l :: ChoiceReveals(explicit, key, l)
    ensures how.Some? ==> Reveals(how.value, key)
  {
    hide *;
    var subsets := Subsets(explicit, MAX_EXPLICIT_SUBSET);
    ghost var lists := AllChoices(|explicit|, MAX_EXPLICIT_SUBSET);
    for s := 0 to |subsets|
      invariant forall k :: 0 <= k < s ==> !ChoiceReveals(explicit, key, lists[k])
    {
      SubsetAt(explicit, MAX_EXPLICIT_SUBSET, lists, s);
      var secret := InterpolateAtZero(subsets[s]);
      var hit := Eq(secret, key);
      ChoiceRevealsIff(explicit, key, lists[s]);
      if hit {
        return Some(subsets[s]);
      }
    }
    NoChoiceReveals(explicit, key, lists);
    return None;
  }

  lemma ChoiceRevealsIff(explicit: seq<Candidate>, key: seq<byte>, l: seq<nat>)
    requires 1 <= |l| <= MAX_EXPLICIT_SUBSET && IsChoice(l, 0, |explicit|)
    ensures Pick(explicit, l) != []
    ensures ChoiceReveals(explicit, key, l) <==> AtZero(Pick(explicit, l)) == Some(key)
    ensures ChoiceReveals(explicit, key, l) ==> Reveals(Pick(explicit, l), key)
  {
    hide AtZero;
  }

  lemma NoChoiceReveals(explicit: seq<Candidate>, key: seq<byte>, lists: seq<seq<nat>>)
    requires forall l :: l in lists <==> 1 <= |l| <= MAX_EXPLICIT_SUBSET && IsChoice(l, 0, |explicit|)
    requires forall k :: 0 <= k < |lists| ==> !ChoiceReveals(explicit, key, lists[k])
    ensures forall l :: !ChoiceReveals(explicit, key, l)
  {
    hide Reveals, IsChoice;
    forall l ensures !ChoiceReveals(explicit, key, l) {
      if l in lists {
        var k :| 0 <= k < |lists| && lists[k] == l;
      }
    }
  }

  function AsCandidate(s: ShareValue): Candidate { Candidate(XByte(s.x) as number, s.y) }

  function AsCandidates(shares: seq<ShareValue>): (points: seq<Candidate>)
    ensures |points| == |shares| && forall i :: 0 <= i < |shares| ==> points[i] == AsCandidate(shares[i])
  {
    seq(|shares|, i requires 0 <= i < |shares| => AsCandidate(shares[i]))
  }

  /** The tripwire's interpolation and the SDK's reconstruction are the same function. */
  lemma AgreesWithSdk(shares: seq<ShareValue>)
    requires WellFormed(shares)
    ensures AtZero(AsCandidates(shares)) == Some(Reconstruction(shares, |shares|))
  {
    hide Polynomials.Eval, Polynomials.Interpolant, XByte, GF256.Low, Polynomials.Distinct;
    var points := AsCandidates(shares);
    forall i | 0 <= i < |shares| ensures LowXs(points)[i] == Xs(shares)[i] {
      GF256.LowOfByte(XByte(shares[i].x));
    }
    assert LowXs(points) == Xs(shares);
    assert shares[..|shares|] == shares;
    PrefixDistinct(shares, |shares|);
    forall b | 0 <= b < |shares[0].y| ensures ByteColumn(points, b) == Column(shares, b) {}
    assert AtZero(points).value == Reconstruction(shares, |shares|);
  }

  /** The increasing list of a finite set of positions. */
  lemma {:induction false} Sorted(s: set<nat>) returns (l: seq<nat>)
    ensures |l| == |s|
    ensures forall i, j :: 0 <= i < j < |l| ==> l[i] < l[j]
    ensures forall x :: x in l <==> x in s
    decreases |s|
  {
    if s == {} {
      l := [];
    } else {
      var m := Largest(s);
      var rest := Sorted(s - {m});
      l := rest + [m];
      forall i | 0 <= i < |rest| ensures rest[i] < m {
        assert rest[i] in rest;
      }
    }
  }

  lemma {:induction false} Largest(s: set<nat>) returns (m: nat)
    requires s != {}
    ensures m in s && forall x :: x in s ==> x <= m
    decreases |s|
  {
    m :| m in s;
    if s != {m} {
      var m' := Largest(s - {m});
      assert forall x :: x in s ==> x == m || x in s - {m};
      if m' > m { m := m'; }
    }
  }

  /** The positions at which the shares stand in the list reveal the key. */
  lemma SharesReveal(
    key: seq<byte>, coins: seq<Polynomials.poly>, threshold: nat, total: nat,
    chosen: seq<ShareValue>, explicit: seq<Candidate>)
    returns (l: seq<nat>, reordered: seq<ShareValue>)
    requires key != [] && 1 <= threshold <= total <= 255 && CoinsFor(key, coins, threshold)
    requires |chosen| == threshold
    requires forall i :: 0 <= i < |chosen| ==> chosen[i] in Split(key, coins, total)
    requires NoRepeats(chosen)
    requires forall i :: 0 <= i < |chosen| ==> AsCandidate(chosen[i]) in explicit
    ensures |l| == |reordered| == threshold && IsChoice(l, 0, |explicit|)
    ensures forall i :: 0 <= i < |l| ==> reordered[i] in chosen && explicit[l[i]] == AsCandidate(reordered[i])
    ensures Reveals(Pick(explicit, l), key)
  {
    hide AtZero, AsCandidate, Reconstruction, WellFormed;
    RoundTrip(key, coins, threshold, total, chosen);
    var at := Positions(chosen, explicit);
    CandidatesDiffer(chosen);
    var positions := set i | 0 <= i < |at| :: at[i];
    PositionsCount(at, positions);
    l := Sorted(positions);
    forall i | 0 <= i < |l| ensures l[i] < |explicit| { assert l[i] in l; }
    reordered := Reorder(chosen, explicit, at, l);
    RoundTrip(key, coins, threshold, total, reordered);
    AgreesWithSdk(reordered);
    assert Pick(explicit, l) == AsCandidates(reordered);
  }

  /**
   * Completeness: whenever the list contains, anywhere, `threshold` <= 8
   * different shares of a split of `key`, some choice of positions reveals it.
   */
  lemma SplitKeyIsReported(
    key: seq<byte>, coins: seq<Polynomials.poly>, threshold: nat, total: nat,
    chosen: seq<ShareValue>, explicit: seq<Candidate>)
    requires key != [] && 1 <= threshold <= total <= 255 && CoinsFor(key, coins, threshold)
    requires threshold <= 8 && |chosen| == threshold
    requires forall i :: 0 <= i < |chosen| ==> chosen[i] in Split(key, coins, total)
    requires NoRepeats(chosen)
    requires forall i :: 0 <= i < |chosen| ==> AsCandidate(chosen[i]) in explicit
    ensures exists l :: ChoiceReveals(explicit, key, l)
  {
    hide Reveals, AsCandidate;
    var l, _ := SharesReveal(key, coins, threshold, total, chosen, explicit);
    assert ChoiceReveals(explicit, key, l);
  }

  lemma IndexOf<T>(s: seq<T>, x: T) returns (k: nat)
    requires x in s
    ensures k < |s| && s[k] == x
  {
    k :| k < |s| && s[k] == x;
  }

  lemma {:induction false} Positions(chosen: seq<ShareValue>, explicit: seq<Candidate>) returns (at: seq<nat>)
    requires forall i :: 0 <= i < |chosen| ==> AsCandidate(chosen[i]) in explicit
    ensures |at| == |chosen|
    ensures forall i :: 0 <= i < |at| ==> at[i] < |explicit| && explicit[at[i]] == AsCandidate(chosen[i])
  {
    at := [];
    while |at| < |chosen|
      invariant |at| <= |chosen|
      invariant forall i :: 0 <= i < |at| ==> at[i] < |explicit| && explicit[at[i]] == AsCandidate(chosen[i])
    {
      var k := IndexOf(explicit, AsCandidate(chosen[|at|]));
      at := at + [k];
    }
  }

  lemma CandidatesDiffer(shares: seq<ShareValue>)
    requires WellFormed(shares)
    ensures forall i, j :: 0 <= i < j < |shares| ==> AsCandidate(shares[i]) != AsCandidate(shares[j])
  {
    hide XByte;
    DistinctXs(shares);
    forall i, j | 0 <= i < j < |shares| ensures AsCandidate(shares[i]) != AsCandidate(shares[j]) {
      assert Xs(shares)[i] != Xs(shares)[j];
      GF256.LowOfByte(XByte(shares[i].x));
      GF256.LowOfByte(XByte(shares[j].x));
    }
  }

  lemma {:induction false} PositionsCount(at: seq<nat>, positions: set<nat>)
    requires NoRepeats(at) && positions == set i | 0 <= i < |at| :: at[i]
    ensures |positions| == |at|
    decreases |at|
  {
    if at == [] {
      assert positions == {};
    } else {
      var init := at[..|at| - 1];
      var smaller := set i | 0 <= i < |init| :: init[i];
      PositionsCount(init, smaller);
      assert positions == smaller + {at[|at| - 1]};
    }
  }

  /** The shares at the sorted positions: the same shares in another order. */
  lemma {:induction false} Reorder(chosen: seq<ShareValue>, explicit: seq<Candidate>, at: seq<nat>, l: seq<nat>)
    returns (reordered: seq<ShareValue>)
    requires |at| == |chosen|
    requires forall i :: 0 <= i < |at| ==> at[i] < |explicit| && explicit[at[i]] == AsCandidate(chosen[i])
    requires forall x :: x in l ==> exists i :: 0 <= i < |at| && at[i] == x
    requires NoRepeats(l) && NoRepeats(chosen)
    ensures |reordered| == |l|
    ensures forall i :: 0 <= i < |l| ==> reordered[i] in chosen
    ensures forall i :: 0 <= i < |l| ==> l[i] < |explicit| && explicit[l[i]] == AsCandidate(reordered[i])
    ensures NoRepeats(reordered)
  {
    hide AsCandidate;
    reordered := [];
    ghost var from: seq<nat> := [];
    while |from| < |l|
      invariant |from| == |reordered| <= |l|
      invariant forall i :: 0 <= i < |from| ==> from[i] < |at| && at[from[i]] == l[i] && reordered[i] == chosen[from[i]]
    {
      assert l[|from|] in l;
      var i: nat :| i < |at| && at[i] == l[|from|];
      from, reordered := from + [i], reordered + [chosen[i]];
    }
  }

  // ---- the odometer over x assignments ----

  predicate IsAssignment(xs: seq<nat>, k: nat) {
    |xs| == k && forall i :: 0 <= i < k ==> 1 <= xs[i] <= MAX_BARE_X
  }

  /** The assignment read as a base-8 numeral, low digit first. */
  function Reading(xs: seq<nat>): nat
    requires forall i :: 0 <= i < |xs| ==> xs[i] >= 1
  {
    if xs == [] then 0 else xs[0] - 1 + MAX_BARE_X * Reading(xs[1..])
  }

  function PowerOf8(k: nat): nat { if k == 0 then 1 else MAX_BARE_X * PowerOf8(k - 1) }

  lemma {:induction false} ReadingBound(xs: seq<nat>, k: nat)
    requires IsAssignment(xs, k)
    ensures Reading(xs) < PowerOf8(k)
  {
    if k > 0 { ReadingBound(xs[1..], k - 1); }
  }

  lemma {:induction false} ReadingInjective(xs: seq<nat>, ys: seq<nat>, k: nat)
    requires IsAssignment(xs, k) && IsAssignment(ys, k) && Reading(xs) == Reading(ys)
    ensures xs == ys
  {
    if k > 0 {
      ReadingInjective(xs[1..], ys[1..], k - 1);
      assert xs == [xs[0]] + xs[1..] && ys == [ys[0]] + ys[1..];
    }
  }

  /** Resetting `i` full digits and raising the next one adds one. */
  lemma {:induction false} Carry(before: seq<nat>, after: seq<nat>, k: nat, i: nat)
    requires IsAssignment(before, k) && IsAssignment(after, k) && i < k
    requires forall m :: 0 <= m < i ==> before[m] == MAX_BARE_X && after[m] == 1
    requires after[i] == before[i] + 1
    requires forall m :: i < m < k ==> after[m] == before[m]
    ensures Reading(after) == Reading(before) + 1
  {
    if i == 0 {
      assert before[1..] == after[1..];
    } else {
      Carry(before[1..], after[1..], k - 1, i - 1);
    }
  }

  lemma {:induction false} AllFull(xs: seq<nat>, k: nat)
    requires IsAssignment(xs, k) && forall m :: 0 <= m < k ==> xs[m] == MAX_BARE_X
    ensures Reading(xs) == PowerOf8(k) - 1
  {
    if k > 0 { AllFull(xs[1..], k - 1); }
  }

  lemma {:induction false} AllOnes(xs: seq<nat>)
    requires forall m :: 0 <= m < |xs| ==> xs[m] == 1
    ensures Reading(xs) == 0
  {
    if xs != [] { AllOnes(xs[1..]); }
  }

  function At(subset: seq<seq<byte>>, xs: seq<nat>): (points: seq<Candidate>)
    requires IsAssignment(xs, |subset|)
    ensures |points| == |subset|
    ensures forall i :: 0 <= i < |subset| ==> points[i] == Candidate(xs[i] as number, subset[i])
  {
    seq(|subset|, i requires 0 <= i < |subset| => Candidate(xs[i] as number, subset[i]))
  }

  ghost predicate AssignmentReveals(subset: seq<seq<byte>>, key: seq<byte>, xs: seq<nat>) {
    IsAssignment(xs, |subset|) && Reveals(At(subset, xs), key)
  }

  /** lines 194-197: to the next assignment; false once all digits were full */
  method Advance(xs: array<nat>, k: nat) returns (more: bool)
    requires xs.Length == k && IsAssignment(xs[..], k)
    modifies xs
    ensures more ==> IsAssignment(xs[..], k) && Reading(xs[..]) == Reading(old(xs[..])) + 1
    ensures !more ==> Reading(old(xs[..])) == PowerOf8(k) - 1
  {
    hide Reading, PowerOf8;
    ghost var before := xs[..];
    var i := 0;
    while i < k && xs[i] == MAX_BARE_X
      invariant i <= k
      invariant forall m :: 0 <= m < i ==> before[m] == MAX_BARE_X && xs[m] == 1
      invariant forall m :: i <= m < k ==> xs[m] == before[m]
    {
      xs[i] := 1;
      i := i + 1;
    }
    if i == k {
      AllFull(before, k);
      return false;
    }
    xs[i] := xs[i] + 1;
    Carry(before, xs[..], k, i);
    return true;
  }

  /**
   * lines 187-198 for one subset. `visited` lists the assignments in the order
   * they are tried: without a hit, each of the 8^k of them, exactly once.
   */
  method BareSubset(subset: seq<seq<byte>>, key: seq<byte>)
    returns (how: Option<seq<nat>>, ghost visited: seq<seq<nat>>)
    requires subset != []
    ensures how.Some? ==> AssignmentReveals(subset, key, how.value)
    ensures how.None? ==> |visited| == PowerOf8(|subset|) && NoRepeats(visited)
    ensures how.None? ==> forall xs :: IsAssignment(xs, |subset|) ==> xs in visited
    ensures how.None? ==> forall xs :: !AssignmentReveals(subset, key, xs)
  {
    hide AtZero, Reading, NoRepeats, PowerOf8, Tried;
    var k := |subset|;
    var xs := new nat[k](_ => 1);
    visited := [];
    AllOnes(xs[..]);
    ReadingBound(xs[..], k);
    NoneTried(subset, key);
    while true
      invariant IsAssignment(xs[..], k) && Reading(xs[..]) == |visited| < PowerOf8(k)
      invariant Tried(subset, key, visited)
      decreases PowerOf8(k) - |visited|
    {
      var points := At(subset, xs[..]);
      var secret := InterpolateAtZero(points);
      var hit := Eq(secret, key);
      if hit {
        return Some(xs[..]), visited;
      }
      OneMoreTried(subset, key, visited, xs[..]);
      visited := visited + [xs[..]];
      var more := Advance(xs, k);
      if !more {
        break;
      }
      ReadingBound(xs[..], k);
    }
    how := None;
    AllTried(subset, key, visited);
  }

  lemma NoneTried(subset: seq<seq<byte>>, key: seq<byte>)
    ensures Tried(subset, key, [])
  {}

  lemma OneMoreTried(subset: seq<seq<byte>>, key: seq<byte>, visited: seq<seq<nat>>, xs: seq<nat>)
    requires Tried(subset, key, visited) && IsAssignment(xs, |subset|) && Reading(xs) == |visited|
    requires !AssignmentReveals(subset, key, xs)
    ensures Tried(subset, key, visited + [xs])
  {
    hide Reading, AssignmentReveals, IsAssignment;
  }

  /** The `v`-th assignment tried reads `v`, and none of them revealed the key. */
  ghost predicate Tried(subset: seq<seq<byte>>, key: seq<byte>, visited: seq<seq<nat>>) {
    forall v :: 0 <= v < |visited| ==>
      && IsAssignment(visited[v], |subset|) && Reading(visited[v]) == v
      && !AssignmentReveals(subset, key, visited[v])
  }

  lemma AllTried(subset: seq<seq<byte>>, key: seq<byte>, visited: seq<seq<nat>>)
    requires Tried(subset, key, visited) && |visited| == PowerOf8(|subset|)
    ensures NoRepeats(visited)
    ensures forall xs :: IsAssignment(xs, |subset|) ==> xs in visited
    ensures forall xs :: !AssignmentReveals(subset, key, xs)
  {
    hide Reveals, Reading;
    forall xs | IsAssignment(xs, |subset|) ensures xs in visited && !AssignmentReveals(subset, key, xs) {
      ReadingBound(xs, |subset|);
      ReadingInjective(xs, visited[Reading(xs)], |subset|);
    }
  }

  ghost predicate BareChoiceReveals(bare: seq<seq<byte>>, key: seq<byte>, l: seq<nat>, xs: seq<nat>) {
    && 1 <= |l| <= MAX_BARE_SUBSET && IsChoice(l, 0, |bare|)
    && AssignmentReveals(Pick(bare, l), key, xs)
  }

  ghost predicate SomeBareReveals(bare: seq<seq<byte>>, key: seq<byte>) {
    exists l, xs :: BareChoiceReveals(bare, key, l, xs)
  }

  /** No x assignment to the subset at these positions gives the key. */
  ghost predicate Harmless(bare: seq<seq<byte>>, key: seq<byte>, l: seq<nat>) {
    forall xs :: !BareChoiceReveals(bare, key, l, xs)
  }

  /** lines 186-199: exact over the candidate list it is given */
  method BareLeak(bare: seq<seq<byte>>, key: seq<byte>) returns (found: bool)
    ensures found <==> SomeBareReveals(bare, key)
  {
    hide *;
    var subsets := Subsets(bare, MAX_BARE_SUBSET);
    ghost var lists := AllChoices(|bare|, MAX_BARE_SUBSET);
    for s := 0 to |subsets|
      invariant forall k :: 0 <= k < s ==> Harmless(bare, key, lists[k])
    {
      SubsetAt(bare, MAX_BARE_SUBSET, lists, s);
      var how, _ := BareSubset(subsets[s], key);
      if how.Some? {
        BareReveals(bare, key, lists[s], how.value);
        return true;
      }
      SubsetHarmless(bare, key, lists[s]);
    }
    AllHarmless(bare, key, lists);
    return false;
  }

  lemma BareReveals(bare: seq<seq<byte>>, key: seq<byte>, l: seq<nat>, xs: seq<nat>)
    requires 1 <= |l| <= MAX_BARE_SUBSET && IsChoice(l, 0, |bare|) && AssignmentReveals(Pick(bare, l), key, xs)
    ensures SomeBareReveals(bare, key)
  {
    assert BareChoiceReveals(bare, key, l, xs);
  }

  lemma SubsetHarmless(bare: seq<seq<byte>>, key: seq<byte>, l: seq<nat>)
    requires forall i :: 0 <= i < |l| ==> l[i] < |bare|
    requires forall xs :: !AssignmentReveals(Pick(bare, l), key, xs)
    ensures Harmless(bare, key, l)
  {
    hide AssignmentReveals;
  }

  lemma AllHarmless(bare: seq<seq<byte>>, key: seq<byte>, lists: seq<seq<nat>>)
    requires forall k :: 0 <= k < |lists| ==> Harmless(bare, key, lists[k])
    requires forall l :: l in lists <==> 1 <= |l| <= MAX_BARE_SUBSET && IsChoice(l, 0, |bare|)
    ensures !SomeBareReveals(bare, key)
  {
    hide AssignmentReveals, IsChoice;
    forall l, xs ensures !BareChoiceReveals(bare, key, l, xs) {
      if l in lists {
        var k :| 0 <= k < |lists| && lists[k] == l;
        assert Harmless(bare, key, lists[k]);
      }
    }
  }

  /** The candidates with the x of the share they come from; 0 where they come from none. */
  function WithXs(chosen: seq<ShareValue>, bare: seq<seq<byte>>): (explicit: seq<Candidate>)
    ensures |explicit| == |bare|
    ensures forall k :: 0 <= k < |bare| ==> explicit[k] == Candidate(XOf(chosen, bare[k]), bare[k])
  {
    seq(|bare|, k requires 0 <= k < |bare| => Candidate(XOf(chosen, bare[k]), bare[k]))
  }

  function XOf(chosen: seq<ShareValue>, y: seq<byte>): number {
    if chosen == [] then 0 else if chosen[0].y == y then AsCandidate(chosen[0]).x else XOf(chosen[1..], y)
  }

  lemma {:induction false} XOfShare(chosen: seq<ShareValue>, i: nat)
    requires i < |chosen| && forall i, j :: 0 <= i < j < |chosen| ==> chosen[i].y != chosen[j].y
    ensures XOf(chosen, chosen[i].y) == AsCandidate(chosen[i]).x
  {
    if i > 0 { XOfShare(chosen[1..], i - 1); }
  }

  lemma SmallX(share: ShareValue)
    requires share.x.Integer? && 1 <= share.x.value <= MAX_BARE_X
    ensures AsCandidate(share).x as nat == share.x.value
    ensures (AsCandidate(share).x as nat) as number == AsCandidate(share).x
  {
    ByteOfInt(share.x.value);
    var v := share.x.value;
    if v == 1 {} else if v == 2 {} else if v == 3 {} else if v == 4 {}
    else if v == 5 {} else if v == 6 {} else if v == 7 {} else {}
  }

  /**
   * Completeness for values whose x was stripped: whenever the candidates contain
   * the pairwise different y of `threshold` <= 3 shares of a split of `key` with x
   * in 1..8, some choice of candidates under some assignment reveals it.
   */
  lemma BareSplitIsReported(
    key: seq<byte>, coins: seq<Polynomials.poly>, threshold: nat, total: nat,
    chosen: seq<ShareValue>, bare: seq<seq<byte>>)
    requires key != [] && 1 <= threshold <= total <= 255 && CoinsFor(key, coins, threshold)
    requires threshold <= 3 && |chosen| == threshold
    requires forall i :: 0 <= i < |chosen| ==> chosen[i] in Split(key, coins, total)
    requires forall i :: 0 <= i < |chosen| ==> chosen[i].x.Integer? && 1 <= chosen[i].x.value <= 8
    requires forall i, j :: 0 <= i < j < |chosen| ==> chosen[i].y != chosen[j].y
    requires forall i :: 0 <= i < |chosen| ==> chosen[i].y in bare
    ensures SomeBareReveals(bare, key)
  {
    hide AtZero, AsCandidate, Reveals, CoinsFor, Split, Pick, At, WithXs, XOf;
    var explicit := WithXs(chosen, bare);
    forall i | 0 <= i < |chosen| ensures AsCandidate(chosen[i]) in explicit {
      var k := IndexOf(bare, chosen[i].y);
      XOfShare(chosen, i);
      CandidateParts(chosen[i]);
      assert explicit[k] == AsCandidate(chosen[i]);
    }
    var l, reordered := SharesReveal(key, coins, threshold, total, chosen, explicit);
    BareReordered(bare, key, explicit, l, reordered);
  }

  lemma BareReordered(
    bare: seq<seq<byte>>, key: seq<byte>, explicit: seq<Candidate>, l: seq<nat>, reordered: seq<ShareValue>)
    requires |explicit| == |bare| && forall k :: 0 <= k < |bare| ==> explicit[k].y == bare[k]
    requires 1 <= |l| == |reordered| <= MAX_BARE_SUBSET && IsChoice(l, 0, |bare|) && Reveals(Pick(explicit, l), key)
    requires forall i :: 0 <= i < |l| ==>
               reordered[i].x.Integer? && 1 <= reordered[i].x.value <= MAX_BARE_X && explicit[l[i]] == AsCandidate(reordered[i])
    ensures SomeBareReveals(bare, key)
  {
    hide AsCandidate, Reveals, Pick, At;
    var xs := seq(|l|, i requires 0 <= i < |l| => AsCandidate(reordered[i]).x as nat);
    forall i | 0 <= i < |l|
      ensures 1 <= xs[i] <= MAX_BARE_X && xs[i] as number == explicit[l[i]].x && bare[l[i]] == explicit[l[i]].y
    {
      SmallX(reordered[i]);
    }
    SamePoints(bare, explicit, l, xs);
    assert BareChoiceReveals(bare, key, l, xs);
  }

  lemma SamePoints(bare: seq<seq<byte>>, explicit: seq<Candidate>, l: seq<nat>, xs: seq<nat>)
    requires |bare| == |explicit| && forall i :: 0 <= i < |l| ==> l[i] < |bare|
    requires IsAssignment(xs, |l|)
    requires forall i :: 0 <= i < |l| ==> xs[i] as number == explicit[l[i]].x && bare[l[i]] == explicit[l[i]].y
    ensures At(Pick(bare, l), xs) == Pick(explicit, l)
  {
    hide Pick, At;
  }

  lemma CandidateParts(share: ShareValue)
    ensures AsCandidate(share) == Candidate(AsCandidate(share).x, share.y)
  {}
}

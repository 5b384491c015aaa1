/**
 * src/crypto/KeyManager.ts: planning, wrapping, unwrapping and reconstructing
 * a threshold-shared key. The ECDH envelope is abstract: all that is used of it
 * is that opening inverts sealing for the addressed holder.
 */
module KeyManager {
  import opened Wrappers
  import opened Text
  import opened Field
  import opened Polynomials
  import opened Shamir
  import Hex

  datatype Cipher = Cipher(
    canonical: jstring -> Option<jstring>,
    seal: (jstring, jstring, jstring, nat) -> jstring,
    open: (jstring, jstring, jstring) -> Option<jstring>)
  {
    ghost predicate IsKey(k: jstring) { canonical(k) == Some(k) }

    /** Canonical keys are fixed points; the addressed holder opens what its owner sealed. */
    ghost predicate Lawful() {
      && (forall k :: canonical(k).Some? ==> IsKey(canonical(k).value))
      && (forall message, sender, holder, nonce, pinned ::
            IsKey(sender) && IsKey(holder) && canonical(pinned) == Some(sender) ==>
              open(seal(message, sender, holder, nonce), holder, pinned) == Some(message))
    }
  }

  // ---- planning ----

  datatype SharingConfig = SharingConfig(
    threshold: JsNumber, total: JsNumber, allowSingleHolder: bool, holders: Option<seq<jstring>>)

  datatype Plan = Plan(threshold: nat, total: nat, holders: seq<jstring>)

  datatype PlanError =
    | InvalidParameters | SingleHolder | NoHolders | WrongHolderCount | InvalidHolderKey | RepeatedHolder

  function Canonical(cipher: Cipher, keys: seq<jstring>): (r: Option<seq<jstring>>)
    ensures r.Some? <==> forall i :: 0 <= i < |keys| ==> cipher.canonical(keys[i]).Some?
    ensures r.Some? ==>
              && |r.value| == |keys|
              && forall i :: 0 <= i < |keys| ==> Some(r.value[i]) == cipher.canonical(keys[i])
  {
    if forall i :: 0 <= i < |keys| ==> cipher.canonical(keys[i]).Some?
    then Some(seq(|keys|, i requires 0 <= i < |keys| && cipher.canonical(keys[i]).Some? => cipher.canonical(keys[i]).value))
    else None
  }

  lemma {:induction false} SetSize(keys: seq<jstring>)
    ensures |set k | k in keys| <= |keys|
    ensures |set k | k in keys| == |keys| <==> NoRepeats(keys)
  {
    if keys == [] {
      assert (set k | k in keys) == {};
    } else {
      var init, last := keys[..|keys| - 1], keys[|keys| - 1];
      SetSize(init);
      assert keys == init + [last];
      var before := set k | k in init;
      assert (set k | k in keys) == before + {last};
      if last in before {
        assert before + {last} == before;
        var i :| 0 <= i < |init| && init[i] == last;
        assert keys[i] == keys[|keys| - 1];
      }
    }
  }

  /** A plan names one different, valid holder key for each of the shares. */
  ghost predicate ValidPlan(cipher: Cipher, plan: Plan) {
    && 1 <= plan.threshold <= plan.total <= 255
    && |plan.holders| == plan.total
    && NoRepeats(plan.holders)
    && forall i :: 0 <= i < plan.total ==> cipher.IsKey(plan.holders[i])
  }

  /** What each refusal says of the configuration. */
  ghost predicate PlanFault(cipher: Cipher, config: SharingConfig, error: PlanError) {
    match error
    case InvalidParameters =>
      !(config.threshold.Integer? && config.total.Integer? && 1 <= config.threshold.value <= config.total.value <= 255)
    case SingleHolder => config.threshold == Integer(1) && !config.allowSingleHolder
    case NoHolders => config.holders == None || config.holders == Some([])
    case WrongHolderCount => config.holders.Some? && config.total != Integer(|config.holders.value|)
    case InvalidHolderKey => config.holders.Some? && exists k :: k in config.holders.value && cipher.canonical(k).None?
    case RepeatedHolder =>
      config.holders.Some? && exists i, j :: 0 <= i < j < |config.holders.value|
                                && cipher.canonical(config.holders.value[i]).Some?
                                && cipher.canonical(config.holders.value[i]) == cipher.canonical(config.holders.value[j])
  }

  /** lines 193-241; success without a plan means sharing is off */
  function PlanKeySharing(cipher: Cipher, config: SharingConfig): (r: Result<Option<Plan>, PlanError>)
    requires cipher.Lawful()
    ensures config.threshold == Integer(0) <==> r == Success(None)
    ensures r.Success? && r.value.Some? ==> ValidPlan(cipher, r.value.value)
    ensures r.Success? && r.value.Some? ==>
              && config.threshold == Integer(r.value.value.threshold) && config.total == Integer(r.value.value.total)
              && config.holders.Some? && Some(r.value.value.holders) == Canonical(cipher, config.holders.value)
              && (r.value.value.threshold == 1 ==> config.allowSingleHolder)
    ensures r.Failure? <==>
              && config.threshold != Integer(0)
              && !(&& config.threshold.Integer? && config.total.Integer?
                   && 1 <= config.threshold.value <= config.total.value <= 255
                   && (config.threshold.value == 1 ==> config.allowSingleHolder)
                   && config.holders.Some? && |config.holders.value| == config.total.value
                   && Canonical(cipher, config.holders.value).Some?
                   && NoRepeats(Canonical(cipher, config.holders.value).value))
    ensures r.Failure? ==> PlanFault(cipher, config, r.error)
  {
    if config.threshold == Integer(0) then Success(None)
    else if config.threshold.NotAnInteger? || config.total.NotAnInteger?
         || config.threshold.value < 1 || config.threshold.value > config.total.value || config.total.value > 255
    then Failure(InvalidParameters)
    else if config.threshold.value == 1 && !config.allowSingleHolder then Failure(SingleHolder)
    else if config.holders.None? || config.holders.value == [] then Failure(NoHolders)
    else if |config.holders.value| != config.total.value then Failure(WrongHolderCount)
    else
      var canonical := Canonical(cipher, config.holders.value);
      if canonical.None? then Failure(InvalidHolderKey)
      else
        SetSize(canonical.value);
        if |set k | k in canonical.value| != |canonical.value| then Failure(RepeatedHolder)
        else Success(Some(Plan(config.threshold.value, config.total.value, canonical.value)))
  }

  // ---- wrapping ----

  datatype KeyShareEnvelope = KeyShareEnvelope(x: int, threshold: int, holderPublicKey: jstring, envelope: jstring)

  /** The envelope of share `i`, sealed with the `i`-th randomness. */
  function EnvelopeAt(
    cipher: Cipher, owner: jstring, key: seq<byte>, coins: seq<poly>, plan: Plan, nonces: seq<nat>, i: nat): KeyShareEnvelope
    requires |coins| == |key| && i < |plan.holders| <= |nonces| && i < 255
  {
    var share := ShareAt(key, coins, i + 1);
    KeyShareEnvelope(i + 1, plan.threshold, plan.holders[i],
                     cipher.seal(Hex.Encode(share.y), owner, plan.holders[i], nonces[i]))
  }

  lemma EnvelopeIs(
    cipher: Cipher, owner: jstring, key: seq<byte>, coins: seq<poly>, plan: Plan, nonces: seq<nat>, i: nat)
    requires |coins| == |key| && i < |plan.holders| <= |nonces| && i < 255
    ensures ShareAt(key, coins, i + 1).x == Integer(i + 1)
    ensures EnvelopeAt(cipher, owner, key, coins, plan, nonces, i)
         == KeyShareEnvelope(i + 1, plan.threshold, plan.holders[i],
              cipher.seal(Hex.Encode(ShareAt(key, coins, i + 1).y), owner, plan.holders[i], nonces[i]))
  {}

  ghost predicate Wiped(shares: seq<Share>)
    reads set i | 0 <= i < |shares| :: shares[i].y
  {
    forall i, b :: 0 <= i < |shares| && 0 <= b < shares[i].y.Length ==> shares[i].y[b] == 0
  }

  method Fill(buffer: array<byte>)
    modifies buffer
    ensures forall b :: 0 <= b < buffer.Length ==> buffer[b] == 0
  {
    for b := 0 to buffer.Length
      invariant forall c :: 0 <= c < b ==> buffer[c] == 0
    {
      buffer[b] := 0;
    }
  }

  /**
   * lines 244-258. Each share buffer is overwritten with zeros once its hex text
   * is sealed; `shares` is the list of buffers, for stating that.
   */
  method WrapKeyShares(
    cipher: Cipher, owner: jstring, key: seq<byte>, plan: Plan, random: Option<seq<poly>>, nonces: seq<nat>)
    returns (out: seq<KeyShareEnvelope>, ok: bool, ghost shares: seq<Share>)
    requires ValidPlan(cipher, plan) && |nonces| >= plan.total
    requires random.Some? ==> CoinsFor(key, random.value, plan.threshold)
    ensures ok <==> random.Some? || key == []
    ensures ok ==>
              && |out| == plan.total
              && forall i :: 0 <= i < plan.total ==>
                   out[i] == EnvelopeAt(cipher, owner, key, if random.Some? then random.value else [], plan, nonces, i)
    ensures ok ==> |shares| == plan.total && Wiped(shares)
  {
    hide Eval, Hex.Encode, ShareAt, EnvelopeAt;
    var scheme := Scheme(plan.threshold, plan.total);
    var split := scheme.SplitSecret(key, random);
    out, shares := [], [];
    if split.Failure? {
      return out, false, shares;
    }
    ghost var coins: seq<poly> := if random.Some? then random.value else [];
    var list := split.value;
    shares := list;
    forall k | 0 <= k < plan.total
      ensures ShareValue(list[k].x, list[k].y[..]) == ShareAt(key, coins, k + 1)
    {
      assert Values(list)[k] == ShareValue(list[k].x, list[k].y[..]);
    }
    for i := 0 to |list|
      invariant |out| == i
      invariant forall k :: 0 <= k < i ==> out[k] == EnvelopeAt(cipher, owner, key, coins, plan, nonces, k)
      invariant forall k, b :: 0 <= k < i && 0 <= b < list[k].y.Length ==> list[k].y[b] == 0
      invariant forall k :: i <= k < plan.total ==>
                  ShareValue(list[k].x, list[k].y[..]) == ShareAt(key, coins, k + 1)
    {
      var share, holder := list[i], plan.holders[i];
      var text := Hex.BytesToHex(share.y[..]);
      var envelope := cipher.seal(text, owner, holder, nonces[i]);
      EnvelopeIs(cipher, owner, key, coins, plan, nonces, i);
      Fill(share.y);
      out := out + [KeyShareEnvelope(share.x.value, plan.threshold, holder, envelope)];
    }
    ok := true;
  }

  // ---- unwrapping ----

  datatype StringShare = StringShare(x: jstring, y: jstring, threshold: jstring)

  datatype UnwrapError = InvalidHolder | OtherHolder | CannotOpen

  /** `String(n)` */
  function Decimal(n: int): jstring {
    if n >= 0 then Numeral(n, 10) else ['-' as int] + Numeral(-n, 10)
  }

  lemma DecimalReads(n: int)
    ensures n >= 0 ==> AllDecimal(Decimal(n)) && Parse(Decimal(n), 10) == n
  {
    if n >= 0 { ParseNumeral(n, 10); }
  }

  /** lines 266-275, run by the holder whose own public key is `me` */
  function UnwrapKeyShare(cipher: Cipher, me: jstring, share: KeyShareEnvelope, owner: jstring): (r: Result<StringShare, UnwrapError>)
    ensures r.Success? <==>
              cipher.canonical(share.holderPublicKey) == Some(me) && cipher.open(share.envelope, me, owner).Some?
    ensures r == Failure(InvalidHolder) <==> cipher.canonical(share.holderPublicKey).None?
    ensures r == Failure(OtherHolder) <==>
              cipher.canonical(share.holderPublicKey).Some? && cipher.canonical(share.holderPublicKey) != Some(me)
    ensures r.Success? ==> Some(r.value.y) == cipher.open(share.envelope, me, owner)
    ensures r.Success? && share.x >= 0 ==> AllDecimal(r.value.x) && Parse(r.value.x, 10) == share.x
    ensures r.Success? && share.threshold >= 0 ==>
              AllDecimal(r.value.threshold) && Parse(r.value.threshold, 10) == share.threshold
  {
    DecimalReads(share.x);
    DecimalReads(share.threshold);
    var holder := cipher.canonical(share.holderPublicKey);
    if holder.None? then Failure(InvalidHolder)
    else if holder.value != me then Failure(OtherHolder)
    else
      var y := cipher.open(share.envelope, me, owner);
      if y.None? then Failure(CannotOpen)
      else Success(StringShare(Decimal(share.x), y.value, Decimal(share.threshold)))
  }

  // ---- reconstruction from strings ----

  datatype KeyError =
    | BadThreshold | NoKeyShares | InsufficientShares | BadX | BadHex | BadShares(error: ShamirError)

  /** One to three decimal digits. */
  predicate IsShortDecimal(x: jstring) { 1 <= |x| <= 3 && AllDecimal(x) }

  /** The share a string share stands for, as lines 576-581 read it. */
  function ParseShare(share: StringShare): Option<ShareValue> {
    if !IsShortDecimal(share.x) || Hex.Decode(share.y).None? then None
    else Some(ShareValue(Integer(Parse(share.x, 10)), Hex.Decode(share.y).value))
  }

  predicate AllParse(shares: seq<StringShare>) { forall i :: 0 <= i < |shares| ==> ParseShare(shares[i]).Some? }

  function Parsed(shares: seq<StringShare>): (r: seq<ShareValue>)
    requires AllParse(shares)
    ensures |r| == |shares| && forall i :: 0 <= i < |r| ==> Some(r[i]) == ParseShare(shares[i])
  {
    seq(|shares|, i requires 0 <= i < |shares| && ParseShare(shares[i]).Some? => ParseShare(shares[i]).value)
  }

  /** The first share that does not parse, and which of its two parts is at fault. */
  ghost predicate FirstUnparsed(shares: seq<StringShare>, error: KeyError) {
    exists k :: 0 <= k < |shares| && ParseShare(shares[k]).None? && AllParse(shares[..k])
             && error == if IsShortDecimal(shares[k].x) then BadHex else BadX
  }

  /** lines 576-581 */
  method ParseShares(shares: seq<StringShare>) returns (r: Result<seq<Share>, KeyError>)
    ensures r.Success? <==> AllParse(shares)
    ensures r.Success? ==> |r.value| == |shares| && Values(r.value) == Parsed(shares)
    ensures r.Failure? ==> FirstUnparsed(shares, r.error)
  {
    hide Hex.Decode, Parse;
    var tuples: seq<Share> := [];
    for i := 0 to |shares|
      invariant |tuples| == i
      invariant forall k :: 0 <= k < i ==> ParseShare(shares[k]) == Some(ShareValue(tuples[k].x, tuples[k].y[..]))
    {
      if !IsShortDecimal(shares[i].x) {
        assert ParseShare(shares[i]).None? && AllParse(shares[..i]);
        return Failure(BadX);
      }
      var y := Hex.HexToBytes(shares[i].y);
      if y.None? {
        assert ParseShare(shares[i]).None? && AllParse(shares[..i]);
        return Failure(BadHex);
      }
      var buffer := new byte[|y.value|](k requires 0 <= k < |y.value| => y.value[k]);
      assert buffer[..] == y.value;
      tuples := tuples + [Share(Integer(Parse(shares[i].x, 10)), buffer)];
    }
    assert Values(tuples) == Parsed(shares);
    return Success(tuples);
  }

  /** Which refusal each bad input gets. */
  ghost predicate Refused(shares: seq<StringShare>, threshold: JsNumber, error: KeyError) {
    if threshold.NotAnInteger? || !(1 <= threshold.value <= 255) then error == BadThreshold
    else if shares == [] then error == NoKeyShares
    else if |shares| < threshold.value then error == InsufficientShares
    else if !AllParse(shares) then FirstUnparsed(shares, error)
    else error.BadShares? && if |shares| > 255 then error.error == TooManyShares else FirstFault(Parsed(shares), error.error)
  }

  /** lines 562-584 */
  method ReconstructKeyFromShares(shares: seq<StringShare>, threshold: JsNumber) returns (r: Result<seq<byte>, KeyError>)
    ensures r.Success? <==>
              && threshold.Integer? && 1 <= threshold.value <= |shares|
              && AllParse(shares) && WellFormed(Parsed(shares))
    ensures r.Success? ==> r.value == Reconstruction(Parsed(shares), threshold.value)
    ensures r.Failure? ==> Refused(shares, threshold, r.error)
  {
    hide ParseShare, WellFormed, Reconstruction, Values, FirstFault, FirstUnparsed;
    if AllParse(shares) && WellFormed(Parsed(shares)) {
      AtMost255(Parsed(shares));
    }
    if threshold.NotAnInteger? || threshold.value < 1 || threshold.value > 255 {
      return Failure(BadThreshold);
    }
    if |shares| == 0 {
      return Failure(NoKeyShares);
    }
    if |shares| < threshold.value {
      return Failure(InsufficientShares);
    }
    var tuples := ParseShares(shares);
    if tuples.Failure? {
      return Failure(tuples.error);
    }
    var secret := ReconstructSecretBytes(tuples.value, threshold);
    return if secret.Success? then Success(secret.value) else Failure(BadShares(secret.error));
  }

  // ---- end to end ----

  lemma DecimalOfX(x: int)
    requires 1 <= x <= 255
    ensures IsShortDecimal(Decimal(x)) && Parse(Decimal(x), 10) == x
  {
    assert Text.Power(10, 1) == 10 * Text.Power(10, 0) && Text.Power(10, 2) == 10 * Text.Power(10, 1)
        && Text.Power(10, 3) == 10 * Text.Power(10, 2);
    NumeralLength(x, 10, 3);
    ParseNumeral(x, 10);
  }

  /** A holder gets back, as text, the very share that was sealed to it. */
  lemma HolderOpensItsShare(
    cipher: Cipher, owner: jstring, pinned: jstring, key: seq<byte>, coins: seq<poly>, plan: Plan, nonces: seq<nat>, i: nat)
    requires cipher.Lawful() && ValidPlan(cipher, plan) && |nonces| >= plan.total
    requires cipher.IsKey(owner) && cipher.canonical(pinned) == Some(owner)
    requires |coins| == |key| && i < plan.total
    ensures var share := UnwrapKeyShare(cipher, plan.holders[i],
                           EnvelopeAt(cipher, owner, key, coins, plan, nonces, i), pinned);
            && share.Success? && ParseShare(share.value) == Some(ShareAt(key, coins, i + 1))
            && AllDecimal(share.value.threshold) && Parse(share.value.threshold, 10) == plan.threshold
  {
    hide Eval, Hex.Encode, Hex.Decode, Decimal, Parse;
    var share := ShareAt(key, coins, i + 1);
    assert cipher.IsKey(plan.holders[i]);
    assert cipher.open(cipher.seal(Hex.Encode(share.y), owner, plan.holders[i], nonces[i]), plan.holders[i], pinned)
        == Some(Hex.Encode(share.y));
    Hex.RoundTrip(share.y);
    DecimalOfX(i + 1);
    DecimalOfX(plan.threshold);
  }

  /**
   * Any list of at least `threshold` different holders, each opening its own
   * envelope, reconstructs the key.
   */
  lemma HoldersRecoverKey(
    cipher: Cipher, owner: jstring, pinned: jstring, key: seq<byte>, coins: seq<poly>, plan: Plan, nonces: seq<nat>,
    present: seq<nat>, unwrapped: seq<StringShare>)
    requires cipher.Lawful() && ValidPlan(cipher, plan) && |nonces| >= plan.total
    requires cipher.IsKey(owner) && cipher.canonical(pinned) == Some(owner)
    requires key != [] && CoinsFor(key, coins, plan.threshold)
    requires |present| >= plan.threshold
    requires forall i :: 0 <= i < |present| ==> present[i] < plan.total
    requires forall i, j :: 0 <= i < j < |present| ==> present[i] != present[j]
    requires |unwrapped| == |present|
    requires forall i :: 0 <= i < |present| ==>
               UnwrapKeyShare(cipher, plan.holders[present[i]],
                 EnvelopeAt(cipher, owner, key, coins, plan, nonces, present[i]), pinned) == Success(unwrapped[i])
    ensures AllParse(unwrapped) && WellFormed(Parsed(unwrapped))
    ensures Reconstruction(Parsed(unwrapped), plan.threshold) == key
  {
    hide Eval, ParseShare, UnwrapKeyShare, EnvelopeAt, Interpolant;
    forall i | 0 <= i < |present| ensures ParseShare(unwrapped[i]) == Some(ShareAt(key, coins, present[i] + 1)) {
      HolderOpensItsShare(cipher, owner, pinned, key, coins, plan, nonces, present[i]);
    }
    var chosen := Parsed(unwrapped);
    forall i | 0 <= i < |chosen| ensures chosen[i] in Split(key, coins, plan.total) {
      assert Split(key, coins, plan.total)[present[i]] == chosen[i];
    }
    RoundTrip(key, coins, plan.threshold, plan.total, chosen);
  }
}

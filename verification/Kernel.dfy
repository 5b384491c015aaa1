/**
 * src/aa/kernel.ts: the 256-bit nonce layout (1 byte mode, 1 byte type, 20 bytes
 * validator, 2 bytes key, 8 bytes sequence) and the guardian install data.
 */
module Kernel {
  import opened Wrappers
  import opened Text
  import Hex

  const TWO_16: nat := 0x1_0000
  const TWO_64: nat := 0x1_0000_0000_0000_0000
  const TWO_80: nat := TWO_16 * TWO_64
  const TWO_160: nat := TWO_80 * TWO_80
  const TWO_192: nat := 0x1_0000_0000_0000_0000_0000_0000_0000_0000_0000_0000_0000_0000
  const TWO_240: nat := TWO_160 * TWO_80
  const TWO_248: nat := TWO_240 * 256

  datatype KernelError =
    | SequenceTooLarge | NotAnAddress | NonceKeyTooLarge | NotHex | KeyTooLarge
    | BadGuardianCount | BadThreshold | DuplicateGuardian

  // ---- nonces ----

  /** lines 41-46 */
  function RootValidatorNonce(sequence: int): Result<int, KernelError> {
    if sequence < 0 || sequence >= TWO_64 then Failure(SequenceTooLarge) else Success(sequence)
  }

  /** The 48 digits of line 63-67: mode 00, type 01, address, four digits of key. */
  function KeyDigits(address: jstring, nonceKey: nat): jstring {
    Of("00") + Of("01") + address + PadStart(Numeral(nonceKey, 16), 4)
  }

  function Tail(s: jstring): jstring { if |s| <= 2 then [] else s[2..] }

  /** lines 55-69 */
  function ValidatorNonceKey(validator: jstring, nonceKey: int): Result<nat, KernelError> {
    var addr := Lower(Tail(validator));
    if |addr| != 40 then Failure(NotAnAddress)
    else if nonceKey < 0 || nonceKey > 0xffff then Failure(NonceKeyTooLarge)
    else
      var hex := KeyDigits(addr, nonceKey);
      if AllHex(hex) then Success(Parse(hex, 16)) else Failure(NotHex)
  }

  /** lines 72-80 */
  function ComposeNonce(key: int, sequence: int): (r: Result<int, KernelError>)
    ensures r.Success? <==> 0 <= key < TWO_192 && 0 <= sequence < TWO_64
    ensures r.Success? ==> 0 <= r.value < TWO_248 * 256 && r.value / TWO_64 == key && r.value % TWO_64 == sequence
    ensures r == Failure(KeyTooLarge) <==> !(0 <= key < TWO_192)
    ensures r.Failure? ==> r.error == KeyTooLarge || r.error == SequenceTooLarge
  {
    if key < 0 || key >= TWO_192 then Failure(KeyTooLarge)
    else if sequence < 0 || sequence >= TWO_64 then Failure(SequenceTooLarge)
    else
      QuotientAndRest(key * TWO_64 + sequence, TWO_64, key, sequence);
      Success(key * TWO_64 + sequence)
  }

  /** The five fields of a nonce, as the wallet contract reads them. */
  datatype Layout = Layout(mode: nat, vType: nat, validator: nat, nonceKey: nat, sequence: nat)

  function DecodeNonce(nonce: nat): Layout {
    Layout(nonce / TWO_248, nonce / TWO_240 % 256, nonce / TWO_80 % TWO_160, nonce / TWO_64 % TWO_16, nonce % TWO_64)
  }

  /** Forty hex digits behind the first two units, which the code never looks at. */
  predicate EndsInAddress(a: jstring) { |a| == 42 && AllHex(a[2..]) }

  /** The number a 20-byte address stands for. */
  function AddressValue(a: jstring): nat
    requires EndsInAddress(a)
  {
    Parse(Lower(a[2..]), 16)
  }

  lemma Powers()
    ensures Power(16, 4) == TWO_16 && Power(16, 40) == TWO_160
  {
    assert Power(16, 1) == 16 * Power(16, 0) && Power(16, 2) == 16 * Power(16, 1)
        && Power(16, 3) == 16 * Power(16, 2) && Power(16, 4) == 16 * Power(16, 3);
    hide Power;
    PowerAdd(16, 4, 4);
    PowerAdd(16, 8, 8);
    PowerAdd(16, 16, 4);
    PowerAdd(16, 20, 20);
  }

  lemma AddressBound(a: jstring)
    requires EndsInAddress(a)
    ensures AddressValue(a) < TWO_160
  {
    Powers();
    ParseBound(Lower(a[2..]));
  }

  lemma ModeAndType()
    ensures |Of("00") + Of("01")| == 4 && AllHex(Of("00") + Of("01")) && Parse(Of("00") + Of("01"), 16) == 1
  {
    var s := Of("00") + Of("01");
    assert s == ['0' as int, '0' as int, '0' as int, '1' as int];
    assert s[..3] == ['0' as int, '0' as int, '0' as int] && s[..3][..2] == ['0' as int, '0' as int]
        && s[..3][..2][..1] == ['0' as int] && s[..3][..2][..1][..0] == [];
    assert Parse(s[..3][..2][..1], 16) == 0;
    assert Parse(s[..3][..2], 16) == 0;
    assert Parse(s[..3], 16) == 0;
  }

  lemma KeyValue(validator: jstring, nonceKey: nat)
    requires EndsInAddress(validator) && nonceKey <= 0xffff
    ensures ValidatorNonceKey(validator, nonceKey) == Success((TWO_160 + AddressValue(validator)) * TWO_16 + nonceKey)
  {
    hide Parse, Lower, Power;
    var addr, head := Lower(validator[2..]), Of("00") + Of("01");
    var digits := PadStart(Numeral(nonceKey, 16), 4);
    Powers();
    ModeAndType();
    NumeralLength(nonceKey, 16, 4);
    ParsePadded(nonceKey, 16, 4);
    ParseConcat(head, addr, 16);
    ParseConcat(head + addr, digits, 16);
  }

  /** The fields of such a number are read off by dividing. */
  lemma LayoutLaw(a: nat, k: nat, s: nat)
    requires a < TWO_160 && k < TWO_16 && s < TWO_64
    ensures ((TWO_160 + a) * TWO_16 + k) * TWO_64 + s < TWO_248
    ensures DecodeNonce(((TWO_160 + a) * TWO_16 + k) * TWO_64 + s) == Layout(0, 1, a, k, s)
    ensures (TWO_160 + a) * TWO_16 + k < TWO_192
  {
    var key := (TWO_160 + a) * TWO_16 + k;
    var nonce := key * TWO_64 + s;
    QuotientAndRest(nonce, TWO_64, key, s);
    QuotientAndRest(key, TWO_16, TWO_160 + a, k);
    QuotientAndRest(TWO_160 + a, TWO_160, 1, a);
    QuotientAndRest(nonce, TWO_80, TWO_160 + a, k * TWO_64 + s);
    QuotientAndRest(nonce, TWO_240, 1, a * TWO_80 + k * TWO_64 + s);
    QuotientAndRest(nonce, TWO_248, 0, nonce);
  }

  lemma QuotientAndRest(n: nat, d: nat, q: nat, r: nat)
    requires n == q * d + r && r < d
    ensures n / d == q && n % d == r
  {
    var q', r' := n / d, n % d;
    Euclid(n, d);
    SmallMultiple(q - q', d);
  }

  lemma Euclid(n: nat, d: nat)
    requires d > 0
    ensures n == n / d * d + n % d
  {}

  lemma SmallMultiple(k: int, d: int)
    requires -d < k * d < d
    ensures k == 0
  {
    if k >= 1 {
    } else if k <= -1 {
    }
  }

  /**
   * A nonce composed for an installed validator decodes to mode 0, type 1, that
   * validator, key and sequence.
   */
  lemma NonceDecodes(validator: jstring, nonceKey: nat, sequence: nat)
    requires EndsInAddress(validator) && nonceKey <= 0xffff && sequence < TWO_64
    ensures var key := ValidatorNonceKey(validator, nonceKey);
            && key.Success? && ComposeNonce(key.value, sequence).Success?
            && ComposeNonce(key.value, sequence).value >= 0
            && DecodeNonce(ComposeNonce(key.value, sequence).value)
               == Layout(0, 1, AddressValue(validator), nonceKey, sequence)
  {
    hide AddressValue, ValidatorNonceKey, DecodeNonce;
    KeyValue(validator, nonceKey);
    AddressBound(validator);
    LayoutLaw(AddressValue(validator), nonceKey, sequence);
  }

  /** A root nonce decodes to zeros and its sequence, and exists exactly for a 64-bit one. */
  lemma RootNonceDecodes(sequence: int)
    ensures RootValidatorNonce(sequence).Success? <==> 0 <= sequence < TWO_64
    ensures RootValidatorNonce(sequence).Success? ==>
              RootValidatorNonce(sequence).value >= 0
              && DecodeNonce(RootValidatorNonce(sequence).value) == Layout(0, 0, 0, 0, sequence)
  {
    if 0 <= sequence < TWO_64 {
      QuotientAndRest(sequence, TWO_64, 0, sequence);
      QuotientAndRest(sequence, TWO_80, 0, sequence);
      QuotientAndRest(sequence, TWO_240, 0, sequence);
      QuotientAndRest(sequence, TWO_248, 0, sequence);
    }
  }

  /** It is never the nonce of the root validator. */
  lemma NeverTheRootNonce(validator: jstring, nonceKey: nat, sequence: nat, rootSequence: int)
    requires EndsInAddress(validator) && nonceKey <= 0xffff && sequence < TWO_64
    ensures RootValidatorNonce(rootSequence) != ComposeNonce(ValidatorNonceKey(validator, nonceKey).value, sequence)
  {
    hide AddressValue, ValidatorNonceKey;
    NonceDecodes(validator, nonceKey, sequence);
    KeyValue(validator, nonceKey);
    var root := RootValidatorNonce(rootSequence);
    var nonce := ComposeNonce(ValidatorNonceKey(validator, nonceKey).value, sequence);
    assert nonce.value >= TWO_160 * TWO_16 * TWO_64;
  }

  /** Two nonces are equal exactly for the same inputs; an address counts up to the case of its digits. */
  lemma NonceIsUnique(validator: jstring, k: nat, s: nat, validator': jstring, k': nat, s': nat)
    requires EndsInAddress(validator) && k <= 0xffff && s < TWO_64
    requires EndsInAddress(validator') && k' <= 0xffff && s' < TWO_64
    ensures var key, key' := ValidatorNonceKey(validator, k), ValidatorNonceKey(validator', k');
            && key.Success? && key'.Success?
            && (ComposeNonce(key.value, s) == ComposeNonce(key'.value, s') <==>
                  Lower(validator[2..]) == Lower(validator'[2..]) && k == k' && s == s')
  {
    hide ValidatorNonceKey, DecodeNonce, Parse, ComposeNonce;
    NonceDecodes(validator, k, s);
    NonceDecodes(validator', k', s');
    var a, b := Lower(validator[2..]), Lower(validator'[2..]);
    hide Hex.AllLower;
    if ComposeNonce(ValidatorNonceKey(validator, k).value, s) == ComposeNonce(ValidatorNonceKey(validator', k').value, s') {
      Hex.ParseInjective(a, b);
    }
    KeyValue(validator, k);
    KeyValue(validator', k');
  }

  // ---- guardian install data ----

  /** A number as a caller may pass it: whole, strictly between `floor` and the next, or NaN. */
  datatype Threshold = Whole(value: int) | Between(floor: int, text: jstring) | NaN
  {
    /** Every comparison with NaN is false. */
    predicate TooSmall() {
      match this case Whole(v) => v < 1 case Between(floor, _) => floor < 1 case NaN => false
    }

    predicate TooLarge(count: nat) {
      match this case Whole(v) => v > count case Between(floor, _) => floor >= count case NaN => false
    }

    /** `toString(16)`: a number that is not whole is written with a point. */
    function Text(): jstring {
      match this case Whole(v) => if v < 0 then ['-' as int] + Numeral(-v, 16) else Numeral(v, 16)
                 case Between(_, text) => text
                 case NaN => Of("NaN")
    }

    predicate Valid() { Between? ==> '.' as int in text }
  }

  /** Two digits of threshold, two of count, then the addresses. */
  function GuardianText(threshold: Threshold, guardians: seq<jstring>): jstring {
    PadStart(threshold.Text(), 2) + PadStart(Numeral(|guardians|, 16), 2) + Addresses(guardians)
  }

  /** The same for a whole threshold. */
  function GuardianDigits(threshold: nat, guardians: seq<jstring>): jstring { GuardianText(Whole(threshold), guardians) }

  function Addresses(guardians: seq<jstring>): jstring {
    if guardians == [] then [] else Addresses(guardians[..|guardians| - 1]) + Tail(guardians[|guardians| - 1])
  }

  ghost predicate DifferentGuardians(guardians: seq<jstring>) {
    forall i, j :: 0 <= i < j < |guardians| ==> Lower(guardians[i]) != Lower(guardians[j])
  }

  lemma AddressesStart(guardians: seq<jstring>)
    ensures Addresses(guardians[..0]) == []
  {}

  lemma AddressesStep(guardians: seq<jstring>, i: nat)
    requires i < |guardians|
    ensures Addresses(guardians[..i + 1]) == Addresses(guardians[..i]) + Tail(guardians[i])
  {
    assert guardians[..i + 1][..i] == guardians[..i];
  }

  /** lines 299-308: the addresses behind `head`, none when one repeats */
  method Append(head: jstring, guardians: seq<jstring>) returns (r: Option<jstring>)
    ensures r.Some? <==> DifferentGuardians(guardians)
    ensures r.Some? ==> r.value == head + Addresses(guardians)
  {
    hide Lower, Addresses, Tail;
    var seen: set<jstring> := {};
    var out := head;
    AddressesStart(guardians);
    for i := 0 to |guardians|
      invariant out == head + Addresses(guardians[..i])
      invariant forall k :: 0 <= k < i ==> Lower(guardians[k]) in seen
      invariant forall v :: v in seen ==> exists k :: 0 <= k < i && Lower(guardians[k]) == v
      invariant forall j, k :: 0 <= j < k < i ==> Lower(guardians[j]) != Lower(guardians[k])
    {
      var k := Lower(guardians[i]);
      if k in seen {
        var j :| 0 <= j < i && Lower(guardians[j]) == k;
        assert !DifferentGuardians(guardians);
        return None;
      }
      seen := seen + {k};
      AddressesStep(guardians, i);
      out := out + Tail(guardians[i]);
    }
    assert guardians[..|guardians|] == guardians;
    return Some(out);
  }

  /** lines 286-310 */
  method GuardianInstallData(threshold: Threshold, guardians: seq<jstring>) returns (r: Result<jstring, KernelError>)
    ensures r.Success? <==>
              && 2 <= |guardians| <= 7 && DifferentGuardians(guardians)
              && !threshold.TooSmall() && !threshold.TooLarge(|guardians|)
    ensures r.Success? ==> r.value == Of("0x") + GuardianText(threshold, guardians)
    ensures r == Failure(BadGuardianCount) <==> !(2 <= |guardians| <= 7)
    ensures r == Failure(BadThreshold) <==>
              2 <= |guardians| <= 7 && (threshold.TooSmall() || threshold.TooLarge(|guardians|))
  {
    hide Of, Numeral, Threshold.Text, Threshold.TooSmall, Threshold.TooLarge, DifferentGuardians, Addresses, PadStart;
    var count := |guardians|;
    if count < 2 || count > 7 {
      return Failure(BadGuardianCount);
    }
    if threshold.TooSmall() || threshold.TooLarge(count) {
      return Failure(BadThreshold);
    }
    var out := Append(PadStart(threshold.Text(), 2) + PadStart(Numeral(count, 16), 2), guardians);
    if out.None? {
      return Failure(DuplicateGuardian);
    }
    return Success(Of("0x") + out.value);
  }

  lemma {:induction false} AddressesAreHex(guardians: seq<jstring>)
    requires forall i :: 0 <= i < |guardians| ==> |guardians[i]| >= 2 && AllHex(guardians[i][2..])
    ensures AllHex(Addresses(guardians))
  {
    if guardians != [] { AddressesAreHex(guardians[..|guardians| - 1]); }
  }

  /** Behind its prefix the data is hex exactly when the threshold that was accepted is whole. */
  lemma HexIffWhole(threshold: Threshold, guardians: seq<jstring>)
    requires threshold.Valid() && !threshold.TooSmall()
    requires forall i :: 0 <= i < |guardians| ==> |guardians[i]| >= 2 && AllHex(guardians[i][2..])
    ensures AllHex(GuardianText(threshold, guardians)) <==> threshold.Whole?
  {
    AddressesAreHex(guardians);
    var head, rest := PadStart(threshold.Text(), 2), PadStart(Numeral(|guardians|, 16), 2) + Addresses(guardians);
    assert GuardianText(threshold, guardians) == head + rest;
    hide Numeral, Addresses;
    match threshold
    case Whole(_) =>
    case Between(_, text) =>
      var i :| 0 <= i < |text| && text[i] == '.' as int;
      var k := i + |head| - |text|;
      assert head[k] == text[i] && (head + rest)[k] == head[k];
    case NaN =>
      assert (head + rest)[0] == head[0] == 'N' as int;
  }

  /** NaN passes both comparisons. */
  lemma NaNIsAccepted(guardians: seq<jstring>)
    ensures !NaN.TooSmall() && !NaN.TooLarge(|guardians|)
    ensures GuardianText(NaN, guardians)[..3] == Of("NaN")
  {
    assert PadStart(Of("NaN"), 2) == Of("NaN");
  }

  lemma {:induction false} AddressesLength(guardians: seq<jstring>)
    requires forall i :: 0 <= i < |guardians| ==> |guardians[i]| == 42
    ensures |Addresses(guardians)| == 40 * |guardians|
  {
    if guardians != [] { AddressesLength(guardians[..|guardians| - 1]); }
  }

  lemma TwoDigits(n: nat)
    requires n < 256
    ensures |PadStart(Numeral(n, 16), 2)| == 2 && Parse(PadStart(Numeral(n, 16), 2), 16) == n
  {
    assert Power(16, 1) == 16 * Power(16, 0) && Power(16, 2) == 16 * Power(16, 1);
    NumeralLength(n, 16, 2);
    ParsePadded(n, 16, 2);
  }

  /** Read as bytes: the threshold, the number of guardians, and guardian `i` at byte 2 + 20 i. */
  lemma GuardianDataReads(threshold: nat, guardians: seq<jstring>, i: nat)
    requires threshold < 256 && i < |guardians| < 256 && forall k :: 0 <= k < |guardians| ==> |guardians[k]| == 42
    ensures var digits := GuardianDigits(threshold, guardians);
            && |digits| == 4 + 40 * |guardians|
            && Parse(digits[..2], 16) == threshold && Parse(digits[2..4], 16) == |guardians|
            && digits[4 + 40 * i..44 + 40 * i] == guardians[i][2..]
  {
    TwoDigits(threshold);
    TwoDigits(|guardians|);
    AddressesLength(guardians);
    hide Numeral, Parse, Addresses;
    var head, rest := PadStart(Numeral(threshold, 16), 2) + PadStart(Numeral(|guardians|, 16), 2), Addresses(guardians);
    var digits := GuardianDigits(threshold, guardians);
    assert digits == head + rest && |head| == 4;
    assert digits[..2] == PadStart(Numeral(threshold, 16), 2) && digits[2..4] == PadStart(Numeral(|guardians|, 16), 2);
    AddressAt(guardians, i);
    assert digits[4 + 40 * i..44 + 40 * i] == rest[40 * i..40 * i + 40];
  }

  lemma {:induction false} AddressAt(guardians: seq<jstring>, i: nat)
    requires i < |guardians| && forall k :: 0 <= k < |guardians| ==> |guardians[k]| == 42
    ensures |Addresses(guardians)| == 40 * |guardians|
    ensures Addresses(guardians)[40 * i..40 * i + 40] == guardians[i][2..]
  {
    var n := |guardians| - 1;
    AddressesLength(guardians[..n]);
    assert Addresses(guardians) == Addresses(guardians[..n]) + guardians[n][2..];
    hide Addresses;
    if i < n {
      AddressAt(guardians[..n], i);
      assert Addresses(guardians)[40 * i..40 * i + 40] == Addresses(guardians[..n])[40 * i..40 * i + 40];
    }
  }

  /** 2 + 20 N bytes, in hex behind the prefix. */
  lemma GuardianDataLength(threshold: nat, guardians: seq<jstring>)
    requires threshold < 256 && |guardians| < 256 && forall i :: 0 <= i < |guardians| ==> |guardians[i]| == 42
    ensures |Of("0x") + GuardianDigits(threshold, guardians)| == 2 + 2 * (2 + 20 * |guardians|)
  {
    TwoDigits(threshold);
    TwoDigits(|guardians|);
    AddressesLength(guardians);
  }

  predicate AreAddresses(guardians: seq<jstring>) {
    forall i :: 0 <= i < |guardians| ==> |guardians[i]| == 42 && guardians[i][..2] == Of("0x")
  }

  /** The data determines threshold and guardians. */
  lemma GuardianDataInjective(t: nat, guardians: seq<jstring>, t': nat, guardians': seq<jstring>)
    requires t < 256 && t' < 256 && |guardians| < 256 && |guardians'| < 256
    requires AreAddresses(guardians) && AreAddresses(guardians')
    ensures GuardianDigits(t, guardians) == GuardianDigits(t', guardians') <==> t == t' && guardians == guardians'
  {
    hide Numeral, Parse, Addresses, Of, AreAddresses;
    var a, b := PadStart(Numeral(t, 16), 2), PadStart(Numeral(|guardians|, 16), 2);
    var a', b' := PadStart(Numeral(t', 16), 2), PadStart(Numeral(|guardians'|, 16), 2);
    TwoDigits(t);
    TwoDigits(t');
    TwoDigits(|guardians|);
    TwoDigits(|guardians'|);
    if GuardianDigits(t, guardians) == GuardianDigits(t', guardians') {
      var whole := GuardianDigits(t, guardians);
      assert a == whole[..2] == a' && b == whole[2..4] == b';
      assert Addresses(guardians) == whole[4..] == Addresses(guardians');
      AddressesInjective(guardians, guardians');
    }
  }

  lemma {:induction false} AddressesInjective(g: seq<jstring>, g': seq<jstring>)
    requires |g| == |g'| && Addresses(g) == Addresses(g') && AreAddresses(g) && AreAddresses(g')
    ensures g == g'
    decreases |g|
  {
    hide *;
    if g != [] {
      AddressesSplit(g);
      AddressesSplit(g');
      AddressesInjective(g[..|g| - 1], g'[..|g| - 1]);
      SameHalves(g[|g| - 1], g'[|g| - 1]);
    }
  }

  lemma SameHalves(a: jstring, b: jstring)
    requires |a| == |b| >= 2 && a[..2] == b[..2] && a[2..] == b[2..]
    ensures a == b
  {
    assert a == a[..2] + a[2..] && b == b[..2] + b[2..];
  }

  lemma AddressesSplit(g: seq<jstring>)
    requires g != [] && AreAddresses(g)
    ensures var n := |g| - 1;
            && |Addresses(g)| == 40 * |g| && AreAddresses(g[..n])
            && |g[n]| == 42 && g[n][..2] == Of("0x")
            && Addresses(g)[..40 * n] == Addresses(g[..n]) && Addresses(g)[40 * n..] == g[n][2..]
  {
    hide Of;
    AddressesLength(g[..|g| - 1]);
  }
}

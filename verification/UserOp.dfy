/**
 * src/aa/userop.ts: packing an ERC-4337 v0.7 user operation and unpacking it for
 * the bundler. Hex texts are what ethers' `toBeHex`, `zeroPadValue` and `concat`
 * produce: lower case, two digits a byte.
 */
module UserOp {
  import opened Wrappers
  import opened Text
  import Hex

  const TWO_128: nat := 0x1_0000_0000_0000_0000_0000_0000_0000_0000

  datatype UserOpError = HalfOutOfRange | NegativeQuantity | PaddingTooShort | NotHexData | NotAWord | NotANumber | PaymasterTooShort

  const PREFIX: jstring := ['0' as int, 'x' as int]

  // ---- ethers ----

  /** 0x, then an even number of hex digits. */
  predicate IsData(h: jstring) { |h| >= 2 && h[..2] == PREFIX && |h| % 2 == 0 && AllHex(h[2..]) }

  /** The digits of `toBeHex(v)`: an even number, at least two. */
  function EvenDigits(v: nat): (s: jstring)
    ensures AllHex(s) && |s| % 2 == 0 && |s| >= 2
  {
    var n := Numeral(v, 16);
    PadStart(n, |n| + |n| % 2)
  }

  function ToBeHex(v: int): Result<jstring, UserOpError> {
    if v < 0 then Failure(NegativeQuantity) else Success(PREFIX + EvenDigits(v))
  }

  function ZeroPadValue(h: jstring, bytes: nat): Result<jstring, UserOpError>
    requires IsData(h)
  {
    if |h| - 2 > 2 * bytes then Failure(PaddingTooShort) else Success(PREFIX + PadStart(h[2..], 2 * bytes))
  }

  /** `concat` lowers the case of what it joins. */
  function Concat(parts: seq<jstring>): Result<jstring, UserOpError> {
    if forall i :: 0 <= i < |parts| ==> IsData(parts[i]) then Success(PREFIX + Bodies(parts)) else Failure(NotHexData)
  }

  function Bodies(parts: seq<jstring>): jstring
    requires forall i :: 0 <= i < |parts| ==> IsData(parts[i])
  {
    if parts == [] then [] else
      assert IsData(parts[0]);
      Lower(parts[0][2..]) + Bodies(parts[1..])
  }

  /** What `BigInt` reads behind a 0x: hex digits, with white space after them allowed. */
  predicate IsHexNumber(digits: jstring) { TrimEnd(digits) != [] && AllHex(TrimEnd(digits)) }

  /** `BigInt('0x' + digits)` */
  function BigInt(digits: jstring): Result<nat, UserOpError> {
    if IsHexNumber(digits) then Success(Parse(TrimEnd(digits), 16)) else Failure(NotANumber)
  }

  // ---- numbers in 16-byte words ----

  /** The 32 digits of a 128-bit number. */
  function Word(v: nat): (s: jstring)
    ensures AllHex(s)
  {
    PadStart(Numeral(v, 16), 32)
  }

  lemma PowerOf16()
    ensures Power(16, 32) == TWO_128
  {
    PowerAdd(16, 16, 16);
    PowerAdd(16, 8, 8);
    assert Power(16, 2) == 16 * Power(16, 1) && Power(16, 1) == 16 * Power(16, 0);
    PowerAdd(16, 2, 2);
    PowerAdd(16, 4, 4);
    assert Power(16, 8) == 0x1_0000_0000;
  }

  lemma DigitCount(v: nat)
    ensures |Numeral(v, 16)| <= 32 <==> v < TWO_128
  {
    PowerOf16();
    if v < TWO_128 {
      NumeralLength(v, 16, 32);
    }
    if |Numeral(v, 16)| <= 32 {
      ParsePadded(v, 16, 32);
      ParseBound(Word(v));
    }
  }

  lemma PadTwice(v: nat)
    ensures |EvenDigits(v)| <= 32 <==> v < TWO_128
    ensures v < TWO_128 ==> PadStart(EvenDigits(v), 32) == Word(v) && |Word(v)| == 32
  {
    DigitCount(v);
  }

  lemma WordValue(v: nat)
    requires v < TWO_128
    ensures |Word(v)| == 32 && Parse(Word(v), 16) == v
  {
    DigitCount(v);
    ParsePadded(v, 16, 32);
  }

  lemma {:induction false} NumeralIsLower(v: nat)
    ensures forall i :: 0 <= i < |Numeral(v, 16)| ==> !('A' as int <= Numeral(v, 16)[i] <= 'F' as int)
    decreases v
  {
    if v >= 16 { NumeralIsLower(v / 16); }
  }

  lemma WordIsLower(v: nat)
    ensures Lower(Word(v)) == Word(v)
  {
    NumeralIsLower(v);
  }

  // ---- packing ----

  /** The padded word of one half, as lines 39-40 and 74-75 make it. */
  function PaddedWord(v: int): (r: Result<jstring, UserOpError>)
    ensures r.Success? <==> 0 <= v < TWO_128
    ensures r.Success? ==> r.value == PREFIX + Word(v)
  {
    if v < 0 then Failure(NegativeQuantity)
    else
      PadTwice(v);
      assert (PREFIX + EvenDigits(v))[2..] == EvenDigits(v);
      ZeroPadValue(PREFIX + EvenDigits(v), 16)
  }

  lemma TwoParts(a: jstring, b: jstring)
    requires IsData(a) && IsData(b)
    ensures Bodies([a, b]) == Lower(a[2..]) + Lower(b[2..])
  {
    assert [a, b][1..] == [b] && [b][1..] == [];
    assert Bodies([b]) == Lower(b[2..]) + Bodies([]);
  }

  /** lines 34-42 */
  function PackUint128Pair(hi: int, lo: int): (r: Result<jstring, UserOpError>)
    ensures r.Success? <==> 0 <= hi < TWO_128 && 0 <= lo < TWO_128
    ensures r.Success? ==> |r.value| == 66 && SplitUint128Pair(r.value) == Success((hi, lo))
    ensures r.Success? ==> AllHex(r.value[2..]) && Parse(r.value[2..], 16) == hi * TWO_128 + lo
  {
    if hi < 0 || hi >= TWO_128 || lo < 0 || lo >= TWO_128 then Failure(HalfOutOfRange)
    else
      var a, b := PaddedWord(hi).value, PaddedWord(lo).value;
      PairLaw(hi, lo);
      Concat([a, b])
  }

  lemma PairLaw(hi: nat, lo: nat)
    requires hi < TWO_128 && lo < TWO_128
    ensures var word := PREFIX + Word(hi) + Word(lo);
            Concat([PREFIX + Word(hi), PREFIX + Word(lo)]) == Success(word)
            && |word| == 66 && SplitUint128Pair(word) == Success((hi, lo))
            && AllHex(word[2..]) && Parse(word[2..], 16) == hi * TWO_128 + lo
  {
    hide Word, Parse, Lower;
    WordValue(hi);
    WordValue(lo);
    WordIsLower(hi);
    WordIsLower(lo);
    var a, b := PREFIX + Word(hi), PREFIX + Word(lo);
    assert a[2..] == Word(hi) && b[2..] == Word(lo);
    TwoParts(a, b);
    var word := PREFIX + Word(hi) + Word(lo);
    assert PREFIX + (Word(hi) + Word(lo)) == word;
    assert word[2..34] == Word(hi) && word[34..66] == Word(lo) && word[..2] == PREFIX;
    assert word[2..] == Word(hi) + Word(lo);
  }

  /** The number a word stands for is made of those of its halves. */
  lemma HalvesLaw(word: jstring)
    ensures |word| == 66 && AllHex(word[2..]) ==>
              && AllHex(word[2..34]) && AllHex(word[34..66]) && Parse(word[34..66], 16) < TWO_128
              && Parse(word[2..34], 16) * TWO_128 + Parse(word[34..66], 16) == Parse(word[2..], 16)
  {
    if |word| == 66 && AllHex(word[2..]) {
      var hi, lo := word[2..34], word[34..66];
      assert word[2..] == hi + lo;
      PowerOf16();
      ParseConcat(hi, lo, 16);
      ParseBound(lo);
    }
  }

  lemma LowerJoins(a: jstring, b: jstring)
    ensures Lower(a + b) == Lower(a) + Lower(b)
  {}

  /** Packing the halves of a word again gives the word, digits in lower case. */
  lemma SplitThenPack(word: jstring)
    requires |word| == 66 && word[..2] == PREFIX && AllHex(word[2..])
    ensures var halves := SplitUint128Pair(word);
            halves.Success? && PackUint128Pair(halves.value.0, halves.value.1) == Success(PREFIX + Lower(word[2..]))
  {
    var hi, lo := HalvesOf(word);
    hide *;
    SplitIs(word, Parse(hi, 16), Parse(lo, 16));
    PackDigits(hi, lo);
  }

  lemma HalvesOf(word: jstring) returns (hi: jstring, lo: jstring)
    requires |word| == 66 && AllHex(word[2..])
    ensures |hi| == |lo| == 32 && AllHex(hi) && AllHex(lo) && hi == word[2..34] && lo == word[34..66] && word[2..] == hi + lo
    ensures BigInt(hi) == Success(Parse(hi, 16)) && BigInt(lo) == Success(Parse(lo, 16))
  {
    var digits := word[2..];
    hi, lo := digits[..32], digits[32..];
    HexHalves(digits);
    hide *;
    WordOfDigits(hi);
    WordOfDigits(lo);
  }

  lemma HexHalves(digits: jstring)
    requires |digits| == 64 && AllHex(digits)
    ensures AllHex(digits[..32]) && AllHex(digits[32..])
  {}

  lemma SplitIs(word: jstring, hi: nat, lo: nat)
    requires |word| == 66 && word[..2] == PREFIX && BigInt(word[2..34]) == Success(hi) && BigInt(word[34..66]) == Success(lo)
    ensures SplitUint128Pair(word) == Success((hi, lo))
  {
    hide BigInt, Parse;
  }

  lemma PackIs(hi: nat, lo: nat)
    requires hi < TWO_128 && lo < TWO_128
    ensures PackUint128Pair(hi, lo) == Success(PREFIX + Word(hi) + Word(lo))
  {
    PairLaw(hi, lo);
    hide Word, Concat, SplitUint128Pair;
  }

  lemma PackDigits(hi: jstring, lo: jstring)
    requires |hi| == |lo| == 32 && AllHex(hi) && AllHex(lo)
    ensures PackUint128Pair(Parse(hi, 16), Parse(lo, 16)) == Success(PREFIX + Lower(hi + lo))
  {
    hide *;
    WordOfDigits(hi);
    WordOfDigits(lo);
    LowerJoins(hi, lo);
    PackIs(Parse(hi, 16), Parse(lo, 16));
    assert PREFIX + Lower(hi) + Lower(lo) == PREFIX + (Lower(hi) + Lower(lo));
  }

  lemma DigitsAreNumber(digits: jstring)
    requires digits != [] && AllHex(digits)
    ensures BigInt(digits) == Success(Parse(digits, 16))
  {
    hide Parse;
  }

  lemma WordOfDigits(digits: jstring)
    requires |digits| == 32 && AllHex(digits)
    ensures Parse(digits, 16) < TWO_128 && Word(Parse(digits, 16)) == Lower(digits)
    ensures BigInt(digits) == Success(Parse(digits, 16))
  {
    PowerOf16();
    LowerIsLower(digits);
    LowerIsLower(Word(Parse(digits, 16)));
    hide *;
    DigitsAreNumber(digits);
    ParseBound(digits);
    var v := Parse(digits, 16);
    WordValue(v);
    WordIsLower(v);
    Hex.ParseLower(digits);
    Hex.ParseInjective(Word(v), Lower(digits));
  }

  lemma LowerIsLower(s: jstring)
    requires AllHex(s)
    ensures Hex.AllLower(Lower(s))
  {}

  /** lines 195-203 */
  function SplitUint128Pair(word: jstring): (r: Result<(nat, nat), UserOpError>)
    ensures r.Success? <==> |word| == 66 && word[..2] == PREFIX && IsHexNumber(word[2..34]) && IsHexNumber(word[34..66])
    ensures r.Success? && AllHex(word[2..]) ==> r.value.0 * TWO_128 + r.value.1 == Parse(word[2..], 16) && r.value.1 < TWO_128
  {
    HalvesLaw(word);
    if |word| != 66 || word[..2] != PREFIX then Failure(NotAWord)
    else
      var hi, lo := BigInt(word[2..34]), BigInt(word[34..66]);
      if hi.Failure? then Failure(hi.error)
      else if lo.Failure? then Failure(lo.error)
      else Success((hi.value, lo.value))
  }

  /** lines 66-78; the category is stored as one byte */
  function PackPaymasterAndData(paymaster: jstring, verification: int, postOp: int, category: int): Result<jstring, UserOpError> {
    var a, b := PaddedWord(verification), PaddedWord(postOp);
    if a.Failure? then Failure(a.error)
    else if b.Failure? then Failure(b.error)
    else Concat([paymaster, a.value, b.value, PREFIX + PadStart(Numeral(category % 256, 16), 2)])
  }

  /** lines 108-110 */
  function PackInitCode(factory: jstring, factoryData: jstring): Result<jstring, UserOpError> {
    Concat([factory, factoryData])
  }

  datatype BuildArgs = BuildArgs(
    sender: jstring, nonce: int, initCode: Option<jstring>, callData: jstring,
    callGasLimit: int, verificationGasLimit: int, preVerificationGas: int,
    maxFeePerGas: int, maxPriorityFeePerGas: int,
    paymasterAndData: Option<jstring>, signature: Option<jstring>)

  datatype PackedUserOperation = PackedUserOperation(
    sender: jstring, nonce: int, initCode: jstring, callData: jstring, accountGasLimits: jstring,
    preVerificationGas: int, gasFees: jstring, paymasterAndData: jstring, signature: jstring)

  function OrElse(h: Option<jstring>): jstring { if h.Some? then h.value else PREFIX }

  /** One 32-byte number with the given halves. */
  predicate Holds(word: jstring, high: nat, low: nat) {
    |word| == 66 && word[..2] == PREFIX && AllHex(word[2..]) && Parse(word[2..], 16) == high * TWO_128 + low
  }

  /** lines 132-147: the verification limit and the priority fee are the high halves */
  function BuildPackedUserOp(args: BuildArgs): (r: Result<PackedUserOperation, UserOpError>)
    ensures r.Success? <==>
              && 0 <= args.callGasLimit < TWO_128 && 0 <= args.verificationGasLimit < TWO_128
              && 0 <= args.maxFeePerGas < TWO_128 && 0 <= args.maxPriorityFeePerGas < TWO_128
    ensures r.Success? ==>
              && Holds(r.value.accountGasLimits, args.verificationGasLimit, args.callGasLimit)
              && Holds(r.value.gasFees, args.maxPriorityFeePerGas, args.maxFeePerGas)
              && r.value.sender == args.sender && r.value.nonce == args.nonce && r.value.callData == args.callData
              && r.value.preVerificationGas == args.preVerificationGas
              && r.value.initCode == OrElse(args.initCode) && r.value.paymasterAndData == OrElse(args.paymasterAndData)
              && r.value.signature == OrElse(args.signature)
  {
    var gas := PackUint128Pair(args.verificationGasLimit, args.callGasLimit);
    var fees := PackUint128Pair(args.maxPriorityFeePerGas, args.maxFeePerGas);
    if gas.Failure? then Failure(gas.error)
    else if fees.Failure? then Failure(fees.error)
    else Success(PackedUserOperation(
      args.sender, args.nonce, OrElse(args.initCode), args.callData, gas.value, args.preVerificationGas,
      fees.value, OrElse(args.paymasterAndData), OrElse(args.signature)))
  }

  // ---- the wire form ----

  datatype Paymaster = Paymaster(address: jstring, verificationGasLimit: jstring, postOpGasLimit: jstring, data: jstring)

  datatype RpcUserOperation = RpcUserOperation(
    sender: jstring, nonce: jstring, callData: jstring, callGasLimit: jstring, verificationGasLimit: jstring,
    preVerificationGas: jstring, maxPriorityFeePerGas: jstring, maxFeePerGas: jstring, signature: jstring,
    factory: Option<(jstring, jstring)>, paymaster: Option<Paymaster>)

  /** lines 225-228 */
  function FactoryOf(initCode: jstring): Option<(jstring, jstring)> {
    if initCode != PREFIX && |initCode| >= 42 then Some((PREFIX + initCode[2..42], PREFIX + initCode[42..])) else None
  }

  /** lines 230-241 */
  function PaymasterOf(paymasterAndData: jstring): Result<Option<Paymaster>, UserOpError> {
    if paymasterAndData == PREFIX then Success(None)
    else if |paymasterAndData| < 2 + 52 * 2 then Failure(PaymasterTooShort)
    else
      var pmd := paymasterAndData[2..];
      var verification, postOp := BigInt(pmd[40..72]), BigInt(pmd[72..104]);
      if verification.Failure? then Failure(verification.error)
      else if postOp.Failure? then Failure(postOp.error)
      else Success(Some(Paymaster(
        PREFIX + pmd[..40], PREFIX + EvenDigits(verification.value), PREFIX + EvenDigits(postOp.value), PREFIX + pmd[104..])))
  }

  /** lines 209-244 */
  function ToRpcUserOperation(op: PackedUserOperation): Result<RpcUserOperation, UserOpError> {
    var gas, fees := SplitUint128Pair(op.accountGasLimits), SplitUint128Pair(op.gasFees);
    var nonce, pre := ToBeHex(op.nonce), ToBeHex(op.preVerificationGas);
    if gas.Failure? then Failure(gas.error)
    else if fees.Failure? then Failure(fees.error)
    else if nonce.Failure? then Failure(nonce.error)
    else if pre.Failure? then Failure(pre.error)
    else
      var paymaster := PaymasterOf(op.paymasterAndData);
      if paymaster.Failure? then Failure(paymaster.error)
      else Success(RpcUserOperation(
        op.sender, nonce.value, op.callData, PREFIX + EvenDigits(gas.value.1), PREFIX + EvenDigits(gas.value.0), pre.value,
        PREFIX + EvenDigits(fees.value.0), PREFIX + EvenDigits(fees.value.1), op.signature,
        FactoryOf(op.initCode), paymaster.value))
  }

  // ---- where everything stands ----

  /** The number of some digits, with white space after them allowed. */
  function NumberAt(h: jstring, from: nat, to: nat): nat
    requires from <= to <= |h|
  {
    Parse(TrimEnd(h[from..to]), 16)
  }

  predicate IsWord(h: jstring) {
    |h| == 66 && h[..2] == PREFIX && IsHexNumber(h[2..34]) && IsHexNumber(h[34..66])
  }

  predicate IsPaymasterData(h: jstring) {
    h == PREFIX || (|h| >= 106 && IsHexNumber(h[42..74]) && IsHexNumber(h[74..106]))
  }

  lemma SplitReads(word: jstring)
    requires IsWord(word)
    ensures SplitUint128Pair(word) == Success((NumberAt(word, 2, 34), NumberAt(word, 34, 66)))
  {
    hide Parse, TrimEnd;
  }

  /** The address is the first 20 bytes, the limits stand at bytes 20 and 36, the rest from byte 52. */
  predicate ReadsPaymaster(wire: Option<Paymaster>, h: jstring) {
    if h == PREFIX then wire == None
    else
      && |h| >= 106 && wire.Some?
      && wire.value.address == PREFIX + h[2..42] && wire.value.data == PREFIX + h[106..]
      && QuantityValue(wire.value.verificationGasLimit) == NumberAt(h, 42, 74)
      && QuantityValue(wire.value.postOpGasLimit) == NumberAt(h, 74, 106)
  }

  lemma PaymasterReads(h: jstring)
    ensures PaymasterOf(h).Success? <==> IsPaymasterData(h)
    ensures PaymasterOf(h).Success? ==> ReadsPaymaster(PaymasterOf(h).value, h)
  {
    if h != PREFIX && |h| >= 106 {
      var pmd := h[2..];
      assert pmd[40..72] == h[42..74] && pmd[72..104] == h[74..106] && pmd[..40] == h[2..42] && pmd[104..] == h[106..];
      hide EvenDigits, Parse, TrimEnd;
      if IsPaymasterData(h) {
        QuantityRoundTrip(NumberAt(h, 42, 74));
        QuantityRoundTrip(NumberAt(h, 74, 106));
      }
    }
  }

  /** What the wire form says of any packed operation. */
  predicate ReadsOperation(rpc: RpcUserOperation, op: PackedUserOperation)
    requires IsWord(op.accountGasLimits) && IsWord(op.gasFees)
  {
    && rpc.sender == op.sender && rpc.callData == op.callData && rpc.signature == op.signature
    && QuantityValue(rpc.nonce) == op.nonce && QuantityValue(rpc.preVerificationGas) == op.preVerificationGas
    && QuantityValue(rpc.verificationGasLimit) == NumberAt(op.accountGasLimits, 2, 34)
    && QuantityValue(rpc.callGasLimit) == NumberAt(op.accountGasLimits, 34, 66)
    && QuantityValue(rpc.maxPriorityFeePerGas) == NumberAt(op.gasFees, 2, 34)
    && QuantityValue(rpc.maxFeePerGas) == NumberAt(op.gasFees, 34, 66)
    && rpc.factory == (if |op.initCode| >= 42 then Some((PREFIX + op.initCode[2..42], PREFIX + op.initCode[42..])) else None)
    && ReadsPaymaster(rpc.paymaster, op.paymasterAndData)
  }

  /**
   * Reading succeeds exactly on two words, numbers that are not negative and paymaster
   * data that is absent or long enough; each limit and fee is then the number of its own digits.
   */
  lemma ToRpcReads(op: PackedUserOperation)
    ensures ToRpcUserOperation(op).Success? <==>
              && IsWord(op.accountGasLimits) && IsWord(op.gasFees) && op.nonce >= 0 && op.preVerificationGas >= 0
              && IsPaymasterData(op.paymasterAndData)
    ensures ToRpcUserOperation(op).Success? ==> ReadsOperation(ToRpcUserOperation(op).value, op)
  {
    hide EvenDigits, QuantityValue, NumberAt, SplitUint128Pair, PaymasterOf, IsPaymasterData, ReadsPaymaster, IsHexNumber, Parse;
    PaymasterReads(op.paymasterAndData);
    if IsWord(op.accountGasLimits) && IsWord(op.gasFees) {
      SplitReads(op.accountGasLimits);
      SplitReads(op.gasFees);
      QuantityRoundTrip(NumberAt(op.accountGasLimits, 2, 34));
      QuantityRoundTrip(NumberAt(op.accountGasLimits, 34, 66));
      QuantityRoundTrip(NumberAt(op.gasFees, 2, 34));
      QuantityRoundTrip(NumberAt(op.gasFees, 34, 66));
      if op.nonce >= 0 { QuantityRoundTrip(op.nonce); }
      if op.preVerificationGas >= 0 { QuantityRoundTrip(op.preVerificationGas); }
    }
  }

  /** Factory first, then its data. */
  lemma InitCodeLayout(factory: jstring, factoryData: jstring)
    requires IsData(factory) && IsData(factoryData)
    ensures PackInitCode(factory, factoryData) == Success(Lower(factory) + Lower(factoryData[2..]))
  {
    TwoParts(factory, factoryData);
    LowerData(factory);
    hide Lower;
    assert PREFIX + (Lower(factory[2..]) + Lower(factoryData[2..])) == PREFIX + Lower(factory[2..]) + Lower(factoryData[2..]);
  }

  /** Behind the paymaster, for a 20-byte one at bytes 20, 36 and 52, stand both limits and the category. */
  lemma PaymasterLayout(paymaster: jstring, verification: int, postOp: int, category: int)
    requires IsData(paymaster)
    ensures var packed := PackPaymasterAndData(paymaster, verification, postOp, category);
            && (packed.Success? <==> 0 <= verification < TWO_128 && 0 <= postOp < TWO_128)
            && (packed.Success? ==>
                  var h, n := packed.value, |paymaster|;
                  && |h| == n + 66 && h[..n] == Lower(paymaster)
                  && Parse(h[n..n + 32], 16) == verification && Parse(h[n + 32..n + 64], 16) == postOp
                  && Parse(h[n + 64..], 16) == category % 256)
  {
    hide Word, Parse, Lower, CategoryDigits, EvenDigits, PackPaymasterAndData;
    PaymasterIs(paymaster, verification, postOp, category);
    if 0 <= verification < TWO_128 && 0 <= postOp < TWO_128 {
      WordValue(verification);
      WordValue(postOp);
      CategoryLaw(category % 256);
      CategoryIs(category % 256);
      FourSlices(Lower(paymaster), Word(verification), Word(postOp), CategoryDigits(category % 256));
    }
  }

  lemma PaymasterIs(paymaster: jstring, verification: int, postOp: int, category: int)
    requires IsData(paymaster)
    ensures var packed := PackPaymasterAndData(paymaster, verification, postOp, category);
            if 0 <= verification < TWO_128 && 0 <= postOp < TWO_128
            then packed == Success(Lower(paymaster) + Word(verification) + Word(postOp) + CategoryDigits(category % 256))
            else packed.Failure?
  {
    hide Word, Parse, Lower, CategoryDigits, EvenDigits;
    if 0 <= verification < TWO_128 && 0 <= postOp < TWO_128 {
      var v, p, c := Word(verification), Word(postOp), CategoryDigits(category % 256);
      WordValue(verification);
      WordValue(postOp);
      WordIsLower(verification);
      WordIsLower(postOp);
      CategoryLaw(category % 256);
      CategoryIs(category % 256);
      assert category % 256 % 256 == category % 256;
      assert (PREFIX + v)[2..] == v && (PREFIX + p)[2..] == p && (PREFIX + c)[2..] == c;
      FourParts(paymaster, PREFIX + v, PREFIX + p, PREFIX + c);
      LowerData(paymaster);
      assert PREFIX + (Lower(paymaster[2..]) + v + p + c) == Lower(paymaster) + v + p + c;
    }
  }

  lemma FourSlices(a: jstring, b: jstring, c: jstring, d: jstring)
    requires |b| == |c| == 32
    ensures var h, n := a + b + c + d, |a|;
            h[..n] == a && h[n..n + 32] == b && h[n + 32..n + 64] == c && h[n + 64..] == d
  {}

  // ---- the round trip ----

  /** The number a wire quantity stands for. */
  function QuantityValue(h: jstring): nat { if |h| < 2 then 0 else Parse(h[2..], 16) }

  lemma QuantityRoundTrip(v: nat)
    ensures QuantityValue(PREFIX + EvenDigits(v)) == v
  {
    assert (PREFIX + EvenDigits(v))[2..] == EvenDigits(v);
    var n := Numeral(v, 16);
    ParsePadded(v, 16, |n| + |n| % 2);
  }

  predicate IsAddress(a: jstring) { IsData(a) && |a| == 42 }

  /** What the paymaster data of a sponsored operation is packed from. */
  datatype Sponsor = Sponsor(paymaster: jstring, verification: nat, postOp: nat, category: nat)

  lemma FactoryRoundTrip(factory: jstring, factoryData: jstring)
    requires IsAddress(factory) && IsData(factoryData)
    ensures var packed := PackInitCode(factory, factoryData);
            packed.Success? && FactoryOf(packed.value) == Some((Lower(factory), Lower(factoryData)))
  {
    var a, b := Lower(factory[2..]), Lower(factoryData[2..]);
    TwoParts(factory, factoryData);
    var packed := PREFIX + (a + b);
    assert packed[2..42] == a && packed[42..] == b;
    LowerData(factory);
    LowerData(factoryData);
  }

  lemma LowerData(h: jstring)
    requires IsData(h)
    ensures Lower(h) == PREFIX + Lower(h[2..])
  {
    assert h == PREFIX + h[2..];
  }

  lemma FourParts(a: jstring, b: jstring, c: jstring, d: jstring)
    requires IsData(a) && IsData(b) && IsData(c) && IsData(d)
    ensures Bodies([a, b, c, d]) == Lower(a[2..]) + Lower(b[2..]) + Lower(c[2..]) + Lower(d[2..])
  {
    hide Lower;
    assert [a, b, c, d][1..] == [b, c, d] && [b, c, d][1..] == [c, d];
    TwoParts(c, d);
    assert Bodies([b, c, d]) == Lower(b[2..]) + Bodies([c, d]);
  }

  /** The two digits of the category byte. */
  function CategoryDigits(category: nat): jstring { PadStart(Numeral(category, 16), 2) }

  lemma CategoryLaw(category: nat)
    requires category < 256
    ensures IsData(PREFIX + CategoryDigits(category)) && |CategoryDigits(category)| == 2
    ensures Lower(CategoryDigits(category)) == CategoryDigits(category) && Parse(CategoryDigits(category), 16) == category
  {
    assert Power(16, 1) == 16 * Power(16, 0) && Power(16, 2) == 16 * Power(16, 1);
    NumeralLength(category, 16, 2);
    NumeralIsLower(category);
    ParsePadded(category, 16, 2);
    assert (PREFIX + CategoryDigits(category))[2..] == CategoryDigits(category);
  }

  lemma PaymasterRoundTrip(s: Sponsor)
    requires IsAddress(s.paymaster) && s.verification < TWO_128 && s.postOp < TWO_128 && s.category < 256
    ensures var packed := PackPaymasterAndData(s.paymaster, s.verification, s.postOp, s.category);
            && packed.Success?
            && PaymasterOf(packed.value) == Success(Some(Paymaster(
                 Lower(s.paymaster), PREFIX + EvenDigits(s.verification), PREFIX + EvenDigits(s.postOp),
                 PREFIX + CategoryDigits(s.category))))
  {
    hide Word, Parse, Lower, CategoryDigits, EvenDigits;
    var v, p, c := Word(s.verification), Word(s.postOp), CategoryDigits(s.category);
    var address := Lower(s.paymaster[2..]);
    WordValue(s.verification);
    WordValue(s.postOp);
    WordIsLower(s.verification);
    WordIsLower(s.postOp);
    CategoryLaw(s.category);
    CategoryIs(s.category);
    assert (PREFIX + v)[2..] == v && (PREFIX + p)[2..] == p && (PREFIX + c)[2..] == c;
    FourParts(s.paymaster, PREFIX + v, PREFIX + p, PREFIX + c);
    var pmd := address + v + p + c;
    var packed := PREFIX + pmd;
    assert packed[2..] == pmd;
    assert pmd[..40] == address && pmd[40..72] == v && pmd[72..104] == p && pmd[104..] == c;
    LowerData(s.paymaster);
  }

  lemma CategoryIs(category: nat)
    requires category < 256
    ensures CategoryDigits(category) == PadStart(Numeral(category % 256, 16), 2)
  {
    hide Numeral;
    assert category % 256 == category;
  }

  /** Gas limits and fees fit in 128 bits; the rest are not negative. */
  predicate InRange(args: BuildArgs) {
    && 0 <= args.callGasLimit < TWO_128 && 0 <= args.verificationGasLimit < TWO_128
    && 0 <= args.maxFeePerGas < TWO_128 && 0 <= args.maxPriorityFeePerGas < TWO_128
    && args.nonce >= 0 && args.preVerificationGas >= 0
  }

  /** The init code is absent, or packed from a 20-byte factory and its data. */
  predicate HasFactory(args: BuildArgs, factory: Option<(jstring, jstring)>) {
    match factory
    case None => args.initCode.None?
    case Some((address, data)) =>
      && IsAddress(address) && IsData(data)
      && args.initCode.Some? && PackInitCode(address, data) == Success(args.initCode.value)
  }

  /** The paymaster data is absent, or packed for a sponsor. */
  predicate HasSponsor(args: BuildArgs, sponsor: Option<Sponsor>) {
    match sponsor
    case None => args.paymasterAndData.None?
    case Some(s) =>
      && IsAddress(s.paymaster) && s.verification < TWO_128 && s.postOp < TWO_128 && s.category < 256
      && args.paymasterAndData.Some?
      && PackPaymasterAndData(s.paymaster, s.verification, s.postOp, s.category) == Success(args.paymasterAndData.value)
  }

  /** The wire form names every input, hex digits in lower case. */
  predicate Recovers(
    rpc: RpcUserOperation, args: BuildArgs, factory: Option<(jstring, jstring)>, sponsor: Option<Sponsor>)
  {
    && rpc.sender == args.sender && rpc.callData == args.callData && rpc.signature == OrElse(args.signature)
    && QuantityValue(rpc.nonce) == args.nonce && QuantityValue(rpc.preVerificationGas) == args.preVerificationGas
    && QuantityValue(rpc.callGasLimit) == args.callGasLimit
    && QuantityValue(rpc.verificationGasLimit) == args.verificationGasLimit
    && QuantityValue(rpc.maxFeePerGas) == args.maxFeePerGas
    && QuantityValue(rpc.maxPriorityFeePerGas) == args.maxPriorityFeePerGas
    && RecoversFactory(rpc.factory, factory) && RecoversSponsor(rpc.paymaster, sponsor)
  }

  predicate RecoversFactory(wire: Option<(jstring, jstring)>, factory: Option<(jstring, jstring)>) {
    match factory
    case None => wire == None
    case Some((address, data)) => wire == Some((Lower(address), Lower(data)))
  }

  predicate RecoversSponsor(wire: Option<Paymaster>, sponsor: Option<Sponsor>) {
    match sponsor
    case None => wire == None
    case Some(s) =>
      && wire.Some? && wire.value.address == Lower(s.paymaster)
      && QuantityValue(wire.value.verificationGasLimit) == s.verification
      && QuantityValue(wire.value.postOpGasLimit) == s.postOp
      && |wire.value.data| == 4 && QuantityValue(wire.value.data) == s.category
  }

  lemma FactoryPart(args: BuildArgs, factory: Option<(jstring, jstring)>)
    requires HasFactory(args, factory)
    ensures RecoversFactory(FactoryOf(OrElse(args.initCode)), factory)
  {
    hide PackInitCode, FactoryOf, Lower;
    NoneAttached();
    if factory.Some? { FactoryRoundTrip(factory.value.0, factory.value.1); }
  }

  lemma SponsorPart(args: BuildArgs, sponsor: Option<Sponsor>)
    requires HasSponsor(args, sponsor)
    ensures var wire := PaymasterOf(OrElse(args.paymasterAndData)); wire.Success? && RecoversSponsor(wire.value, sponsor)
  {
    hide PackPaymasterAndData, PaymasterOf, Lower, EvenDigits, QuantityValue;
    NoneAttached();
    if sponsor.Some? {
      PaymasterRoundTrip(sponsor.value);
      QuantityRoundTrip(sponsor.value.verification);
      QuantityRoundTrip(sponsor.value.postOp);
      CategoryQuantity(sponsor.value.category);
    }
  }

  lemma NoneAttached()
    ensures FactoryOf(PREFIX) == None && PaymasterOf(PREFIX) == Success(None)
  {}

  /**
   * Every in-range operation survives packing and unpacking: the wire form names
   * each quantity, the factory and its data, and the paymaster with both limits
   * and its category byte.
   */
  lemma PackingRoundTrip(args: BuildArgs, factory: Option<(jstring, jstring)>, sponsor: Option<Sponsor>)
    requires InRange(args) && HasFactory(args, factory) && HasSponsor(args, sponsor)
    ensures var packed := BuildPackedUserOp(args);
            packed.Success?
            && var rpc := ToRpcUserOperation(packed.value);
               rpc.Success? && Recovers(rpc.value, args, factory, sponsor)
  {
    hide EvenDigits, Lower, QuantityValue, Parse, Word, SplitUint128Pair, PackUint128Pair, FactoryOf, PaymasterOf,
      HasFactory, HasSponsor, RecoversFactory, RecoversSponsor;
    FactoryPart(args, factory);
    SponsorPart(args, sponsor);
    QuantityRoundTrip(args.nonce);
    QuantityRoundTrip(args.preVerificationGas);
    QuantityRoundTrip(args.callGasLimit);
    QuantityRoundTrip(args.verificationGasLimit);
    QuantityRoundTrip(args.maxFeePerGas);
    QuantityRoundTrip(args.maxPriorityFeePerGas);
  }

  lemma CategoryQuantity(category: nat)
    requires category < 256
    ensures var data := PREFIX + CategoryDigits(category);
            |data| == 4 && QuantityValue(data) == category
  {
    CategoryLaw(category);
    assert (PREFIX + CategoryDigits(category))[2..] == CategoryDigits(category);
  }
}

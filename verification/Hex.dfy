/** src/crypto/CryptoManager.ts lines 268-293: bytes to hex and back, strictly. */
module Hex {
  import opened Wrappers
  import opened Text
  import opened Field

  function Pair(b: byte): (s: jstring)
    ensures |s| == 2 && AllHex(s)
  {
    NumeralLengthOfByte(b);
    PadStart(Numeral(b as int, 16), 2)
  }

  lemma NumeralLengthOfByte(b: byte)
    ensures |Numeral(b as int, 16)| <= 2
  {
    assert Power(16, 1) == 16 * Power(16, 0) && Power(16, 2) == 16 * Power(16, 1);
    NumeralLength(b as int, 16, 2);
  }

  /** Two lower-case digits a byte. */
  function Encode(bytes: seq<byte>): (s: jstring)
    ensures |s| == 2 * |bytes| && AllHex(s)
  {
    if bytes == [] then [] else Encode(bytes[..|bytes| - 1]) + Pair(bytes[|bytes| - 1])
  }

  /** lines 268-274 */
  method BytesToHex(bytes: seq<byte>) returns (s: jstring)
    ensures s == Encode(bytes)
    ensures |s| == 2 * |bytes| && AllLower(s)
    ensures forall i :: 0 <= i < |bytes| ==> Parse(s[2 * i..2 * i + 2], 16) == bytes[i] as int
  {
    EncodeReads(bytes);
    s := [];
    for i := 0 to |bytes|
      invariant s == Encode(bytes[..i])
    {
      assert bytes[..i + 1][..i] == bytes[..i];
      s := s + PadStart(Numeral(bytes[i] as int, 16), 2);
    }
    assert bytes[..|bytes|] == bytes;
  }

  /** What remains after an optional 0x or 0X. */
  function Body(hex: jstring): jstring {
    if |hex| >= 2 && hex[0] == '0' as int && (hex[1] == 'x' as int || hex[1] == 'X' as int) then hex[2..] else hex
  }

  /** The strict grammar: an optional prefix, then an even number of hex digits. */
  predicate IsStrictHex(hex: jstring) { |Body(hex)| % 2 == 0 && AllHex(Body(hex)) }

  function Decode(hex: jstring): (r: Option<seq<byte>>) {
    if !IsStrictHex(hex) then None else Some(BytesOf(Body(hex)))
  }

  function BytesOf(digits: jstring): (bytes: seq<byte>)
    requires |digits| % 2 == 0 && AllHex(digits)
    ensures |bytes| == |digits| / 2
    ensures forall i :: 0 <= i < |bytes| ==> bytes[i] == ByteAt(digits, i)
  {
    seq(|digits| / 2, i requires 0 <= i < |digits| / 2 => ByteAt(digits, i))
  }

  function ByteAt(digits: jstring, i: nat): byte
    requires |digits| % 2 == 0 && AllHex(digits) && i < |digits| / 2
  {
    PairBound(digits[2 * i..2 * i + 2]);
    Parse(digits[2 * i..2 * i + 2], 16) as byte
  }

  lemma PairBound(pair: jstring)
    requires |pair| == 2 && AllHex(pair)
    ensures Parse(pair, 16) < 256
  {
    assert Power(16, 1) == 16 * Power(16, 0) && Power(16, 2) == 16 * Power(16, 1);
    ParseBound(pair);
  }

  /** lines 282-293; `None` is the thrown error */
  method HexToBytes(hex: jstring) returns (r: Option<seq<byte>>)
    ensures r == Decode(hex)
    ensures r.Some? <==> IsStrictHex(hex)
    ensures r.Some? ==> |r.value| == |Body(hex)| / 2
    ensures r.Some? ==>
              forall i :: 0 <= i < |r.value| ==> r.value[i] as int == Parse(Body(hex)[2 * i..2 * i + 2], 16)
  {
    hide Parse, IsHexDigit;
    if !IsStrictHex(hex) {
      return None;
    }
    var clean := Body(hex);
    var out := new byte[|clean| / 2];
    for i := 0 to out.Length
      invariant forall k :: 0 <= k < i ==> out[k] == ByteAt(clean, k)
    {
      PairBound(clean[2 * i..2 * i + 2]);
      out[i] := Parse(clean[2 * i..2 * i + 2], 16) as byte;
    }
    assert out[..] == BytesOf(clean);
    BytesRead(clean);
    return Some(out[..]);
  }

  lemma BytesRead(digits: jstring)
    requires |digits| % 2 == 0 && AllHex(digits)
    ensures forall i :: 0 <= i < |digits| / 2 ==> BytesOf(digits)[i] as int == Parse(digits[2 * i..2 * i + 2], 16)
  {
    forall i | 0 <= i < |digits| / 2 ensures BytesOf(digits)[i] as int == Parse(digits[2 * i..2 * i + 2], 16) {
      hide Parse;
      PairBound(digits[2 * i..2 * i + 2]);
      ByteOfInt(Parse(digits[2 * i..2 * i + 2], 16));
    }
  }

  lemma ByteOfPair(b: byte)
    ensures Parse(Pair(b), 16) == b as int && (b as int) as byte == b
  {
    ParsePadded(b as int, 16, 2);
  }

  lemma {:induction false} EncodeAt(bytes: seq<byte>, i: nat)
    requires i < |bytes|
    ensures Encode(bytes)[2 * i..2 * i + 2] == Pair(bytes[i])
    decreases |bytes|
  {
    var init := bytes[..|bytes| - 1];
    if i < |init| {
      EncodeAt(init, i);
      assert Encode(bytes)[2 * i..2 * i + 2] == Encode(init)[2 * i..2 * i + 2];
    }
  }

  lemma ByteAtEncoded(bytes: seq<byte>, i: nat)
    requires i < |bytes|
    ensures ByteAt(Encode(bytes), i) == bytes[i]
  {
    hide Encode, Pair, Parse;
    EncodeAt(bytes, i);
    ByteOfPair(bytes[i]);
  }

  lemma BytesOfEncoded(bytes: seq<byte>)
    ensures BytesOf(Encode(bytes)) == bytes
  {
    hide Encode, ByteAt;
    forall i | 0 <= i < |bytes| ensures ByteAt(Encode(bytes), i) == bytes[i] {
      ByteAtEncoded(bytes, i);
    }
  }

  /** Decoding inverts encoding. */
  lemma RoundTrip(bytes: seq<byte>)
    ensures Decode(Encode(bytes)) == Some(bytes)
  {
    hide Encode, BytesOf, Body;
    NoPrefix(Encode(bytes));
    BytesOfEncoded(bytes);
  }

  lemma NoPrefix(s: jstring)
    requires AllHex(s)
    ensures Body(s) == s
  {
    if |s| >= 2 { assert IsHexDigit(s[1]); }
  }

  lemma SmallPairIsLower(v: nat)
    requires v < 256
    ensures AllLower(PadStart(Numeral(v, 16), 2))
  {
    assert v / 16 < 16 && v % 16 < 16 && v / 16 * 16 + v % 16 == v;
    hide *;
    TwoDigits(v / 16, v % 16);
    DigitIsLower(v / 16);
    DigitIsLower(v % 16);
    TwoLower(DigitChar(v / 16), DigitChar(v % 16));
  }

  lemma PairIsLower(b: byte)
    ensures AllLower(Pair(b))
  {
    assert Pair(b) == PadStart(Numeral(b as int, 16), 2);
    hide *;
    ByteRange(b);
    SmallPairIsLower(b as int);
  }

  lemma ByteRange(b: byte)
    ensures 0 <= b as int < 256
  {}

  lemma TwoLower(c: unit, d: unit)
    requires IsHexDigit(c) && LowerUnit(c) == c && IsHexDigit(d) && LowerUnit(d) == d
    ensures AllLower([c, d])
  {}

  lemma DigitIsLower(v: nat)
    requires v < 16
    ensures IsHexDigit(DigitChar(v)) && LowerUnit(DigitChar(v)) == DigitChar(v)
  {}

  /** Byte for byte, the text is the byte's number in two lower-case digits, the high one first. */
  lemma EncodeReads(bytes: seq<byte>)
    ensures AllLower(Encode(bytes))
    ensures forall i :: 0 <= i < |bytes| ==> Parse(Encode(bytes)[2 * i..2 * i + 2], 16) == bytes[i] as int
  {
    hide Parse, Pair, Encode, DigitValue;
    forall i | 0 <= i < |bytes| ensures Parse(Encode(bytes)[2 * i..2 * i + 2], 16) == bytes[i] as int {
      EncodeAt(bytes, i);
      ByteOfPair(bytes[i]);
    }
    var s := Encode(bytes);
    forall k | 0 <= k < |s| ensures IsHexDigit(s[k]) && LowerUnit(s[k]) == s[k] {
      EncodeAt(bytes, k / 2);
      PairIsLower(bytes[k / 2]);
      assert s[k] == s[2 * (k / 2)..2 * (k / 2) + 2][k % 2];
    }
  }

  // ---- lower-case digit strings of one length are ordered like their numbers ----

  predicate AllLower(s: jstring) { forall i :: 0 <= i < |s| ==> IsHexDigit(s[i]) && LowerUnit(s[i]) == s[i] }

  lemma SameDigits(p: nat, c: nat, q: nat, d: nat)
    requires c < 16 && d < 16 && p * 16 + c == q * 16 + d
    ensures p == q && c == d
  {}

  lemma LowerDigitsDiffer(c: unit, d: unit)
    requires IsHexDigit(c) && LowerUnit(c) == c && IsHexDigit(d) && LowerUnit(d) == d
    ensures DigitValue(c) == DigitValue(d) <==> c == d
    ensures DigitValue(c) < DigitValue(d) <==> c < d
  {}

  lemma LastLower(s: jstring)
    requires s != [] && AllLower(s)
    ensures var a, c := s[..|s| - 1], s[|s| - 1];
            && s == a + [c] && AllLower(a) && IsHexDigit(c) && LowerUnit(c) == c && DigitValue(c) < 16
            && Parse(s, 16) == Parse(a, 16) * 16 + DigitValue(c)
  {}

  lemma {:induction false} ParseInjective(s: jstring, t: jstring)
    requires |s| == |t| && AllLower(s) && AllLower(t) && Parse(s, 16) == Parse(t, 16)
    ensures s == t
    decreases |s|
  {
    hide *;
    if s != [] {
      var a, b := s[..|s| - 1], t[..|t| - 1];
      var c, d := s[|s| - 1], t[|t| - 1];
      LastLower(s);
      LastLower(t);
      SameDigits(Parse(a, 16), DigitValue(c), Parse(b, 16), DigitValue(d));
      LowerDigitsDiffer(c, d);
      ParseInjective(a, b);
    }
  }

  lemma {:induction false} ParseLower(s: jstring)
    ensures Parse(Lower(s), 16) == Parse(s, 16)
  {
    if s != [] {
      var init := s[..|s| - 1];
      assert Lower(s)[..|s| - 1] == Lower(init);
      ParseLower(init);
    }
  }

  lemma ParseHead(s: jstring)
    requires s != [] && AllHex(s)
    ensures Parse(s, 16) == DigitValue(s[0]) * Power(16, |s| - 1) + Parse(s[1..], 16)
    ensures Parse(s[1..], 16) < Power(16, |s| - 1)
  {
    assert s == s[..1] + s[1..] && s[..1][..0] == [];
    assert Parse(s[..1], 16) == DigitValue(s[0]);
    ParseConcat(s[..1], s[1..], 16);
    ParseBound(s[1..]);
  }

  // ---- encoding what was decoded ----

  lemma SmallNumeral(v: nat)
    requires v < 256
    ensures v < 16 ==> Numeral(v, 16) == [DigitChar(v)]
    ensures v >= 16 ==> Numeral(v, 16) == [DigitChar(v / 16)] + [DigitChar(v % 16)]
  {
    if v >= 16 { assert Numeral(v / 16, 16) == [DigitChar(v / 16)]; }
  }

  lemma SameDigit(c: unit)
    requires IsHexDigit(c)
    ensures DigitChar(DigitValue(c)) == LowerUnit(c)
  {}

  lemma TwoDigits(hi: nat, lo: nat)
    requires hi < 16 && lo < 16
    ensures PadStart(Numeral(hi * 16 + lo, 16), 2) == [DigitChar(hi), DigitChar(lo)]
  {
    var v := hi * 16 + lo;
    assert v / 16 == hi && v % 16 == lo;
    SmallNumeral(v);
    hide Numeral, DigitChar;
    assert hi == 0 ==> DigitChar(hi) == '0' as int by { ZeroDigit(); }
  }

  lemma ZeroDigit()
    ensures DigitChar(0) == '0' as int
  {}

  lemma PairOfDigits(hi: unit, lo: unit, v: nat)
    requires IsHexDigit(hi) && IsHexDigit(lo) && v == DigitValue(hi) * 16 + DigitValue(lo)
    ensures PadStart(Numeral(v, 16), 2) == [LowerUnit(hi), LowerUnit(lo)]
  {
    hide Numeral, DigitChar, LowerUnit, DigitValue, PadStart;
    SameDigit(hi);
    SameDigit(lo);
    TwoDigits(DigitValue(hi), DigitValue(lo));
  }

  lemma ParsePair(pair: jstring)
    requires |pair| == 2
    ensures Parse(pair, 16) == DigitValue(pair[0]) * 16 + DigitValue(pair[1])
  {
    assert pair[..1][..0] == [];
    assert Parse(pair[..1], 16) == DigitValue(pair[0]);
  }

  lemma EncodeByteAt(digits: jstring, i: nat)
    requires |digits| % 2 == 0 && AllHex(digits) && i < |digits| / 2
    ensures Pair(ByteAt(digits, i)) == Lower(digits)[2 * i..2 * i + 2]
  {
    var pair := digits[2 * i..2 * i + 2];
    PairBound(pair);
    ParsePair(pair);
    ByteOfInt(Parse(pair, 16));
    PairOfDigits(pair[0], pair[1], Parse(pair, 16));
  }

  /** Encoding inverts decoding, up to the prefix and the digits' case. */
  lemma DecodeThenEncode(hex: jstring)
    requires IsStrictHex(hex)
    ensures Encode(Decode(hex).value) == Lower(Body(hex))
  {
    hide Pair, ByteAt;
    var digits := Body(hex);
    var bytes := BytesOf(digits);
    hide Encode;
    forall i | 0 <= i < |bytes| ensures Encode(bytes)[2 * i..2 * i + 2] == Lower(digits)[2 * i..2 * i + 2] {
      EncodeAt(bytes, i);
      EncodeByteAt(digits, i);
    }
    forall k | 0 <= k < |digits| ensures Encode(bytes)[k] == Lower(digits)[k] {
      var i := k / 2;
      assert Encode(bytes)[2 * i..2 * i + 2][k - 2 * i] == Lower(digits)[2 * i..2 * i + 2][k - 2 * i];
    }
  }
}

/**
 * src/aa/webauthn.ts: reading the ASN.1/DER form of an ECDSA signature (section
 * 2.2.3 of RFC 3279) and normalising its s.
 */
module Der {
  import opened Wrappers

  type octet = b: int | 0 <= b < 256

  const P256_N: nat := 0xffffffff00000000ffffffffffffffffbce6faada7179e84f3b9cac2fc632551
  const P256_N_DIV_2: nat := P256_N / 2

  datatype DerError = NotDer | ExpectedInteger | TruncatedInteger | SOutOfRange

  /** The big-endian number of some bytes. */
  function Magnitude(bytes: seq<octet>): nat {
    if bytes == [] then 0 else Magnitude(bytes[..|bytes| - 1]) * 256 + bytes[|bytes| - 1]
  }

  // ---- parsing ----

  /** An INTEGER whose tag is at `offset`: its value and the offset behind it. */
  function IntegerAt(der: seq<octet>, offset: nat): Result<(nat, nat), DerError> {
    if offset >= |der| || der[offset] != 0x02 then Failure(ExpectedInteger)
    else
      var len := if offset + 1 < |der| then der[offset + 1] else 0;
      if len == 0 || offset + 2 + len > |der| then Failure(TruncatedInteger)
      else Success((Magnitude(der[offset + 2..offset + 2 + len]), offset + 2 + len))
  }

  /** lines 69-83 */
  method ReadInt(der: seq<octet>, offset: nat) returns (r: Result<(nat, nat), DerError>)
    ensures r == IntegerAt(der, offset)
  {
    if offset >= |der| || der[offset] != 0x02 {
      return Failure(ExpectedInteger);
    }
    var len := if offset + 1 < |der| then der[offset + 1] else 0;
    if len == 0 || offset + 2 + len > |der| {
      return Failure(TruncatedInteger);
    }
    var slice := der[offset + 2..offset + 2 + len];
    var v: nat := 0;
    for i := 0 to |slice|
      invariant v == Magnitude(slice[..i])
    {
      assert slice[..i + 1][..i] == slice[..i];
      v := v * 256 + slice[i];
    }
    assert slice[..|slice|] == slice;
    return Success((v, offset + 2 + len));
  }

  function BodyOffset(header: octet): nat {
    if header >= 0x80 then 2 + header % 0x80 else 2
  }

  function Parsed(der: seq<octet>): Result<(nat, nat), DerError> {
    if |der| < 8 || der[0] != 0x30 then Failure(NotDer)
    else
      var r := IntegerAt(der, BodyOffset(der[1]));
      if r.Failure? then Failure(r.error)
      else
        var s := IntegerAt(der, r.value.1);
        if s.Failure? then Failure(s.error) else Success((r.value.0, s.value.0))
  }

  /** lines 62-87 */
  method ParseDerEcdsaSignature(der: seq<octet>) returns (r: Result<(nat, nat), DerError>)
    ensures r == Parsed(der)
  {
    if |der| < 8 || der[0] != 0x30 {
      return Failure(NotDer);
    }
    var offset := BodyOffset(der[1]);
    var first := ReadInt(der, offset);
    if first.Failure? {
      return Failure(first.error);
    }
    offset := first.value.1;
    var second := ReadInt(der, offset);
    if second.Failure? {
      return Failure(second.error);
    }
    return Success((first.value.0, second.value.0));
  }

  // ---- encoding, for comparison ----

  /** The shortest big-endian bytes of a positive number. */
  function Shortest(v: nat): (bytes: seq<octet>)
    ensures v > 0 ==> bytes != [] && bytes[0] != 0
    ensures v == 0 ==> bytes == []
  {
    if v == 0 then [] else Shortest(v / 256) + [v % 256]
  }

  /** DER writes a leading zero byte when the first bit would read as a sign. */
  function Content(v: nat): (bytes: seq<octet>)
    requires v > 0
    ensures bytes != []
  {
    if Shortest(v)[0] >= 0x80 then [0] + Shortest(v) else Shortest(v)
  }

  function Integer(content: seq<octet>): seq<octet>
    requires |content| < 256
  {
    [0x02, |content|] + content
  }

  /** The length bytes of the outer SEQUENCE: short form, or long form. */
  predicate IsHeader(header: seq<octet>) {
    && header != []
    && (if header[0] < 0x80 then |header| == 1 else |header| == 1 + header[0] % 0x80)
  }

  lemma {:induction false} MagnitudeShortest(v: nat)
    ensures Magnitude(Shortest(v)) == v
    decreases v
  {
    if v > 0 {
      MagnitudeShortest(v / 256);
      var s := Shortest(v / 256);
      assert (s + [v % 256])[..|s|] == s;
    }
  }

  lemma {:induction false} LeadingZero(bytes: seq<octet>)
    ensures Magnitude([0] + bytes) == Magnitude(bytes)
  {
    if bytes == [] {
      assert ([0] + bytes)[..0] == [];
    } else {
      var init := bytes[..|bytes| - 1];
      assert ([0] + bytes)[..|bytes|] == [0] + init;
      LeadingZero(init);
    }
  }

  lemma ContentValue(v: nat)
    requires v > 0
    ensures Magnitude(Content(v)) == v
  {
    MagnitudeShortest(v);
    LeadingZero(Shortest(v));
  }

  lemma {:induction false} ShortestLength(v: nat, k: nat)
    requires v < Power256(k)
    ensures |Shortest(v)| <= k
    decreases k
  {
    if v > 0 {
      ShortestLength(v / 256, k - 1);
    }
  }

  function Power256(k: nat): nat { if k == 0 then 1 else 256 * Power256(k - 1) }

  lemma PrimeFits()
    ensures P256_N < Power256(32)
  {
    assert Power256(4) == 0x1_0000_0000;
    assert Power256(8) == 256 * (256 * (256 * (256 * Power256(4))));
    assert Power256(12) == 256 * (256 * (256 * (256 * Power256(8))));
    assert Power256(16) == 256 * (256 * (256 * (256 * Power256(12))));
    assert Power256(20) == 256 * (256 * (256 * (256 * Power256(16))));
    assert Power256(24) == 256 * (256 * (256 * (256 * Power256(20))));
    assert Power256(28) == 256 * (256 * (256 * (256 * Power256(24))));
    assert Power256(32) == 256 * (256 * (256 * (256 * Power256(28))));
  }

  lemma IntegerIs(der: seq<octet>, offset: nat, len: nat)
    requires 0 < len && offset + 2 + len <= |der| && der[offset] == 0x02 && der[offset + 1] == len
    ensures IntegerAt(der, offset) == Success((Magnitude(der[offset + 2..offset + 2 + len]), offset + 2 + len))
  {}

  lemma ContentStands(content: seq<octet>, after: seq<octet>)
    requires 0 < |content| < 256
    ensures var rest := Integer(content) + after;
            |rest| >= 2 + |content| && rest[0] == 0x02 && rest[1] == |content| && rest[2..2 + |content|] == content
  {}

  lemma IntegerAtStart(content: seq<octet>, after: seq<octet>)
    requires 0 < |content| < 256
    ensures IntegerAt(Integer(content) + after, 0) == Success((Magnitude(content), |Integer(content)|))
  {
    ContentStands(content, after);
    assert |Integer(content)| == 2 + |content|;
    hide *;
    IntegerIs(Integer(content) + after, 0, |content|);
  }

  /** Reading at an offset is reading what stands there. */
  lemma IntegerBehind(der: seq<octet>, offset: nat)
    requires offset <= |der| && IntegerAt(der[offset..], 0).Success?
    ensures var (v, end) := IntegerAt(der[offset..], 0).value;
            IntegerAt(der, offset) == Success((v, offset + end))
  {
    var rest := der[offset..];
    var len := rest[1];
    assert rest[2..2 + len] == der[offset + 2..offset + 2 + len];
  }

  lemma IntegerReads(before: seq<octet>, content: seq<octet>, after: seq<octet>)
    requires 0 < |content| < 256
    ensures IntegerAt(before + Integer(content) + after, |before|)
         == Success((Magnitude(content), |before + Integer(content)|))
  {
    hide *;
    var rest := Integer(content) + after;
    assert before + Integer(content) + after == before + rest;
    assert (before + rest)[|before|..] == rest;
    IntegerAtStart(content, after);
    IntegerBehind(before + rest, |before|);
  }

  /** Reading gives back both numbers from any contents, header form and trailing bytes. */
  lemma ParserReads(header: seq<octet>, rContent: seq<octet>, sContent: seq<octet>, trailing: seq<octet>)
    requires IsHeader(header) && 0 < |rContent| < 256 && 0 < |sContent| < 256
    ensures Parsed([0x30] + header + Integer(rContent) + Integer(sContent) + trailing)
         == Success((Magnitude(rContent), Magnitude(sContent)))
  {
    var front, r, s := [0x30] + header, Integer(rContent), Integer(sContent);
    HeaderSkipped(header, r + s + trailing);
    Associates(front + r, s, trailing);
    Associates(front, r, s + trailing);
    Associates(front, r, s);
    Associates(front, r + s, trailing);
    Associates(r, s, trailing);
    hide Integer, IsHeader, Magnitude, IntegerAt, BodyOffset;
    IntegerReads(front, rContent, s + trailing);
    IntegerReads(front + r, sContent, trailing);
  }

  lemma Associates(a: seq<octet>, b: seq<octet>, c: seq<octet>)
    ensures a + b + c == a + (b + c)
  {}

  lemma HeaderSkipped(header: seq<octet>, rest: seq<octet>)
    requires IsHeader(header)
    ensures var der := [0x30] + header + rest;
            |der| >= 2 && der[0] == 0x30 && BodyOffset(der[1]) == |[0x30] + header|
  {}

  /** The text is a header, two INTEGERs with these contents, and trailing bytes. */
  ghost predicate Splits(
    der: seq<octet>, header: seq<octet>, rContent: seq<octet>, sContent: seq<octet>, trailing: seq<octet>)
  {
    && IsHeader(header) && 0 < |rContent| < 256 && 0 < |sContent| < 256
    && der == [0x30] + header + Integer(rContent) + Integer(sContent) + trailing
  }

  /** An INTEGER that is read stands there, contents and all. */
  lemma IntegerStands(der: seq<octet>, offset: nat) returns (content: seq<octet>)
    requires IntegerAt(der, offset).Success?
    ensures 0 < |content| < 256
    ensures var (v, end) := IntegerAt(der, offset).value;
            && offset <= end <= |der| && der[offset..end] == Integer(content) && v == Magnitude(content)
  {
    content := der[offset + 2..offset + 2 + der[offset + 1]];
  }

  lemma CutAt(der: seq<octet>, a: nat, b: nat, c: nat)
    requires 1 <= a <= b <= c <= |der|
    ensures der == der[..1] + der[1..a] + der[a..b] + der[b..c] + der[c..]
  {}

  /** Where the two INTEGERs stand in a text that is read. */
  lemma ParsedAt(der: seq<octet>) returns (start: nat, middle: nat)
    requires Parsed(der).Success?
    ensures |der| >= 2 && der[0] == 0x30 && start == BodyOffset(der[1])
    ensures IntegerAt(der, start).Success? && IntegerAt(der, start).value.1 == middle && IntegerAt(der, middle).Success?
    ensures Parsed(der) == Success((IntegerAt(der, start).value.0, IntegerAt(der, middle).value.0))
  {
    start := BodyOffset(der[1]);
    middle := IntegerAt(der, start).value.1;
  }

  lemma HeaderStands(der: seq<octet>, start: nat)
    requires |der| >= 2 && start == BodyOffset(der[1]) && start <= |der|
    ensures start >= 2 && IsHeader(der[1..start])
  {
    assert der[1..start][0] == der[1];
  }

  /** Whatever is read was written so: nothing else succeeds. */
  lemma OnlyDerIsRead(der: seq<octet>)
    returns (header: seq<octet>, rContent: seq<octet>, sContent: seq<octet>, trailing: seq<octet>)
    requires Parsed(der).Success?
    ensures Splits(der, header, rContent, sContent, trailing)
    ensures Parsed(der) == Success((Magnitude(rContent), Magnitude(sContent)))
  {
    hide Magnitude, Parsed, IntegerAt, BodyOffset, Integer, IsHeader;
    var start, middle := ParsedAt(der);
    var end := IntegerAt(der, middle).value.1;
    rContent := IntegerStands(der, start);
    sContent := IntegerStands(der, middle);
    HeaderStands(der, start);
    header, trailing := der[1..start], der[end..];
    CutAt(der, start, middle, end);
    assert der[..1] == [0x30];
  }

  /** Parsing succeeds, with these numbers, exactly on the texts that split into them. */
  lemma ReadsExactlyDer(der: seq<octet>, r: nat, s: nat)
    ensures Parsed(der) == Success((r, s)) <==>
              exists header, rContent, sContent, trailing ::
                Splits(der, header, rContent, sContent, trailing) && Magnitude(rContent) == r && Magnitude(sContent) == s
  {
    hide Parsed, Magnitude, IsHeader, Integer;
    if Parsed(der) == Success((r, s)) {
      var header, rContent, sContent, trailing := OnlyDerIsRead(der);
      assert Splits(der, header, rContent, sContent, trailing);
    }
    if header, rContent, sContent, trailing :|
        Splits(der, header, rContent, sContent, trailing) && Magnitude(rContent) == r && Magnitude(sContent) == s {
      ParserReads(header, rContent, sContent, trailing);
    }
  }

  /** A number as DER writes it, or without the leading zero byte. */
  function Written(v: nat, padded: bool): (bytes: seq<octet>)
    requires v > 0
  {
    if padded then Content(v) else Shortest(v)
  }

  lemma WrittenFits(v: nat, padded: bool)
    requires 1 <= v < P256_N
    ensures 0 < |Written(v, padded)| <= 33 && Magnitude(Written(v, padded)) == v
  {
    PrimeFits();
    ShortestLength(v, 32);
    MagnitudeShortest(v);
    ContentValue(v);
  }

  /**
   * Parsing inverts DER encoding for every r and s of a P-256 signature, whether
   * each is written with DER's leading zero byte or without it.
   */
  lemma ParserInvertsEncoding(r: nat, s: nat, rPadded: bool, sPadded: bool)
    requires 1 <= r < P256_N && 1 <= s < P256_N
    ensures var rContent, sContent := Written(r, rPadded), Written(s, sPadded);
            && 0 < |rContent| <= 33 && 0 < |sContent| <= 33
            && Parsed([0x30, 4 + |rContent| + |sContent|] + Integer(rContent) + Integer(sContent)) == Success((r, s))
  {
    var rContent, sContent := Written(r, rPadded), Written(s, sPadded);
    WrittenFits(r, rPadded);
    WrittenFits(s, sPadded);
    var header := [4 + |rContent| + |sContent|];
    assert IsHeader(header);
    assert [0x30] + header == [0x30, 4 + |rContent| + |sContent|];
    hide Parsed, Magnitude, Written, Integer, IsHeader;
    var body := [0x30] + header + Integer(rContent) + Integer(sContent);
    assert body + [] == body;
    ParserReads(header, rContent, sContent, []);
  }

  // ---- low s ----

  /** lines 40-45 */
  function NormalizeP256S(s: int): (r: Result<int, DerError>)
    ensures r.Success? <==> 1 <= s < P256_N
    ensures r.Success? ==> 1 <= r.value <= P256_N_DIV_2 && (r.value == s || r.value == P256_N - s)
  {
    if s <= 0 || s >= P256_N then Failure(SOutOfRange)
    else if s > P256_N_DIV_2 then Success(P256_N - s)
    else Success(s)
  }

  /** The two signatures s and n - s have one normal form, which normalising leaves alone. */
  lemma NormalFormIsUnique(s: int)
    requires 1 <= s < P256_N
    ensures NormalizeP256S(P256_N - s) == NormalizeP256S(s)
    ensures NormalizeP256S(NormalizeP256S(s).value) == NormalizeP256S(s)
    ensures forall low :: 1 <= low <= P256_N_DIV_2 && (low == s || low == P256_N - s) ==> NormalizeP256S(s) == Success(low)
  {}
}

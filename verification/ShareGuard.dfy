/**
 * src/crypto/shareGuard.ts: the guard over deploy payloads. The JSON decoder is
 * the inverse of rendering, which is a function because the grammar is
 * unambiguous; how a number literal is rounded is left to `numbers`.
 */
module ShareGuard {
  import opened Wrappers
  import opened Text
  import opened Field
  import opened Json
  import Hex
  import Shamir
  import Polynomials
  import KeyManager
  import DuplicateKeys
  import ScanRendering
  import Unambiguous

  type jsnumber = Shamir.JsNumber
  type NumberReader = jstring -> jsnumber

  /** A value as `scan` sees it. */
  datatype Value =
    | Null
    | Bool(b: bool)
    | Num(n: jsnumber)
    | Str(s: jstring)
    | Bytes(bytes: seq<byte>)
    | List(items: seq<Value>)
    | Record(fields: map<jstring, Value>)

  // ---- decoding ----

  /** The value a tree denotes; of two members with one name the later one wins. */
  function ValueOf(n: Node, numbers: NumberReader): Value
    decreases n, 1
  {
    match n
    case Token(raw) =>
      if raw == Of("null") then Null
      else if raw == Of("true") then Bool(true)
      else if raw == Of("false") then Bool(false)
      else Num(numbers(raw))
    case Quoted(raw) => Str(if Unescape(raw).Some? then Unescape(raw).value else [])
    case Elements(items, _) => List(ValuesOf(items, numbers))
    case Members(fields, _) => Record(FieldsOf(fields, numbers))
  }

  function ValuesOf(items: seq<Spaced>, numbers: NumberReader): (values: seq<Value>)
    ensures |values| == |items|
    decreases items, 0
  {
    if items == [] then [] else [ValueOf(items[0].node, numbers)] + ValuesOf(items[1..], numbers)
  }

  function FieldsOf(fields: seq<Json.Field>, numbers: NumberReader): map<jstring, Value>
    decreases fields, 0
  {
    if fields == [] then map[]
    else map[NameOf(fields[0]) := ValueOf(fields[0].value.node, numbers)] + FieldsOf(fields[1..], numbers)
  }

  ghost predicate IsText(text: jstring, document: Spaced) {
    GrammaticalSpaced(document) && RenderSpaced(document) == text
  }

  ghost function TreeOf(text: jstring): (document: Spaced)
    requires exists d :: IsText(text, d)
    ensures IsText(text, document)
  {
    var d :| IsText(text, d);
    d
  }

  /** `JSON.parse`; none when it throws */
  ghost function Decode(text: jstring, numbers: NumberReader): Option<Value> {
    if exists d :: IsText(text, d) then Some(ValueOf(TreeOf(text).node, numbers)) else None
  }

  /** Decoding gives the value of the one tree that renders to the text. */
  lemma DecodeIs(text: jstring, document: Spaced, numbers: NumberReader)
    requires IsText(text, document)
    ensures Decode(text, numbers) == Some(ValueOf(document.node, numbers)) && TreeOf(text) == document
  {
    Unambiguous.OneTree(document, TreeOf(text));
  }

  // ---- the measure: decoding shortens every string ----

  ghost function MaxOf(s: set<nat>): (m: nat)
    ensures forall x :: x in s ==> x <= m
    ensures s != {} ==> m in s
    ensures s == {} ==> m == 0
  {
    if s == {} then 0
    else
      var x :| x in s;
      var rest := MaxOf(s - {x});
      assert forall y :: y in s ==> y == x || y in s - {x};
      if x >= rest then x else rest
  }

  /** One more than the length of the longest string inside, 0 without strings. */
  ghost function Longest(v: Value): nat {
    match v
    case Str(s) => |s| + 1
    case List(items) => MaxOf(set i | 0 <= i < |items| :: Longest(items[i]))
    case Record(fields) => MaxOf(set k | k in fields :: Longest(fields[k]))
    case _ => 0
  }

  lemma LongestInside(v: Value)
    ensures v.List? ==> forall i :: 0 <= i < |v.items| ==> Longest(v.items[i]) <= Longest(v)
    ensures v.Record? ==> forall k :: k in v.fields ==> Longest(v.fields[k]) <= Longest(v)
  {
    match v
    case List(items) =>
      var lengths := set i | 0 <= i < |items| :: Longest(items[i]);
      assert Longest(v) == MaxOf(lengths);
      forall i | 0 <= i < |items| ensures Longest(items[i]) <= Longest(v) {
        assert Longest(items[i]) in lengths;
      }
    case Record(fields) =>
      var lengths := set k | k in fields :: Longest(fields[k]);
      assert Longest(v) == MaxOf(lengths);
      forall k | k in fields ensures Longest(fields[k]) <= Longest(v) {
        assert Longest(fields[k]) in lengths;
      }
    case _ =>
  }

  lemma {:induction false} NodeShortens(n: Node, numbers: NumberReader)
    requires Grammatical(n)
    ensures Longest(ValueOf(n, numbers)) <= |Render(n)|
    decreases n, 1
  {
    match n
    case Token(raw) =>
    case Quoted(raw) =>
    case Elements(items, _) =>
      ItemsShorten(items, numbers);
    case Members(fields, _) =>
      FieldsShorten(fields, numbers);
      assert forall k :: k in FieldsOf(fields, numbers) ==> Longest(FieldsOf(fields, numbers)[k]) <= |Render(n)|;
  }

  lemma {:induction false} ItemsShorten(items: seq<Spaced>, numbers: NumberReader)
    requires GrammaticalItems(items)
    ensures forall i :: 0 <= i < |items| ==> Longest(ValuesOf(items, numbers)[i]) <= |RenderItems(items)|
    decreases items, 0
  {
    if items != [] {
      NodeShortens(items[0].node, numbers);
      ItemsShorten(items[1..], numbers);
      assert |RenderSpaced(items[0])| <= |RenderItems(items)|;
      assert |RenderItems(items[1..])| <= |RenderItems(items)|;
    }
  }

  lemma {:induction false} FieldsShorten(fields: seq<Json.Field>, numbers: NumberReader)
    requires GrammaticalFields(fields)
    ensures forall k :: k in FieldsOf(fields, numbers) ==>
              Longest(FieldsOf(fields, numbers)[k]) <= |RenderFields(fields)|
    decreases fields, 0
  {
    if fields != [] {
      NodeShortens(fields[0].value.node, numbers);
      FieldsShorten(fields[1..], numbers);
      assert |RenderSpaced(fields[0].value)| <= |RenderField(fields[0])|;
      assert |RenderField(fields[0])| <= |RenderFields(fields)|;
      assert |RenderFields(fields[1..])| <= |RenderFields(fields)|;
    }
  }

  lemma DecodingShortens(text: jstring, numbers: NumberReader)
    ensures Decode(text, numbers).Some? ==> Longest(Decode(text, numbers).value) < |text| + 1
  {
    if exists d :: IsText(text, d) {
      NodeShortens(TreeOf(text).node, numbers);
    }
  }

  // ---- share shapes ----

  const MAX_DEPTH: nat := 32
  const MIN_SHARE_BYTES: nat := 16

  predicate InDenyList(name: jstring) {
    name == Of("keyShares") || name == Of("key_shares")
    || name == Of("keyShareEnvelopes") || name == Of("key_share_envelopes")
  }

  function Squeeze(s: jstring): jstring {
    if s == [] then [] else (if IsSpace(s[0]) then [] else [s[0]]) + Squeeze(s[1..])
  }

  /** lines 22-24 */
  predicate ShareYLike(y: jstring) {
    var t := Squeeze(y);
    exists i :: 0 <= i <= |t| - 2 * MIN_SHARE_BYTES && HexRunAt(t, i)
  }

  predicate HexRunAt(t: jstring, i: nat)
    requires i <= |t| - 2 * MIN_SHARE_BYTES
  {
    AllHex(t[i..i + 2 * MIN_SHARE_BYTES])
  }

  /** lines 26-29 */
  predicate IsShareX(x: Value) {
    match x
    case Num(n) => Shamir.InRange(n)
    case Str(s) => KeyManager.IsShortDecimal(s) && 1 <= Parse(s, 10) <= 255
    case _ => false
  }

  /** lines 31-34 */
  predicate IsByteInt(v: Value) { v.Num? && v.n.Integer? && -128 <= v.n.value <= 255 }

  /** lines 41-51; a record's index keys are enumerated first and in order */
  function BytesLikeLength(y: Value): nat {
    match y
    case Bytes(bytes) => |bytes|
    case List(items) => if forall i :: 0 <= i < |items| ==> IsByteInt(items[i]) then |items| else 0
    case Record(m) =>
      if Of("type") in m && m[Of("type")] == Str(Of("Buffer")) && Of("data") in m && m[Of("data")].List?
      then BytesLikeLength(m[Of("data")])
      else if && (forall i :: 0 <= i < |m| ==> KeyManager.Decimal(i) in m)
              && (forall k :: k in m ==> IsByteInt(m[k]))
      then |m|
      else 0
    case _ => 0
  }

  /** lines 108-118 */
  predicate LooksLikeShare(m: map<jstring, Value>) {
    || (&& ((Of("x") in m && IsShareX(m[Of("x")])) || (Of("X") in m && IsShareX(m[Of("X")])))
        && ((Of("y") in m && IsShareY(m[Of("y")])) || (Of("Y") in m && IsShareY(m[Of("Y")]))))
    || (Of("envelope") in m && (Of("holderPublicKey") in m || Of("holder_public_key") in m))
  }

  predicate IsShareY(y: Value) {
    BytesLikeLength(y) >= MIN_SHARE_BYTES || (y.Str? && ShareYLike(y.s))
  }

  // ---- what is refused, by what is written ----

  /** The value is a number standing for the byte `b`, unsigned or signed. */
  predicate ByteNumber(v: Value, b: byte) {
    v.Num? && v.n.Integer? && (v.n.value == b as int || (128 <= b as int && v.n.value == b as int - 256))
  }

  predicate ListsBytes(items: seq<Value>, bytes: seq<byte>) {
    |items| == |bytes| && forall i :: 0 <= i < |items| ==> ByteNumber(items[i], bytes[i])
  }

  ghost predicate IndexesBytes(m: map<jstring, Value>, bytes: seq<byte>) {
    && (forall k :: k in m ==> exists i :: 0 <= i < |bytes| && k == KeyManager.Decimal(i))
    && (forall i :: 0 <= i < |bytes| ==> KeyManager.Decimal(i) in m && ByteNumber(m[KeyManager.Decimal(i)], bytes[i]))
  }

  predicate BuffersBytes(m: map<jstring, Value>, bytes: seq<byte>) {
    && Of("type") in m && m[Of("type")] == Str(Of("Buffer"))
    && Of("data") in m && m[Of("data")].List? && ListsBytes(m[Of("data")].items, bytes)
  }

  /** The value writes these bytes: themselves, as a list, as a serialised buffer or keyed by their indices. */
  ghost predicate WritesBytes(y: Value, bytes: seq<byte>) {
    || y == Bytes(bytes)
    || (y.List? && ListsBytes(y.items, bytes))
    || (y.Record? && (BuffersBytes(y.fields, bytes) || IndexesBytes(y.fields, bytes)))
  }

  /** Somewhere stand 32 hex digits with nothing but white space between them. */
  ghost predicate HoldsLongHex(y: jstring) {
    exists i, j :: 0 <= i <= j <= |y| && HexAndSpace(y[i..j]) && |HexPlaces(y[i..j])| >= 32
  }

  predicate HexAndSpace(s: jstring) { forall k :: 0 <= k < |s| ==> IsHexDigit(s[k]) || IsSpace(s[k]) }

  function HexPlaces(s: jstring): set<int> { set k | 0 <= k < |s| && IsHexDigit(s[k]) }

  /** The value is the number n, or one to three digits that make it up. */
  predicate WritesX(x: Value, n: int) {
    x == Num(Shamir.Integer(n)) || (x.Str? && 1 <= |x.s| <= 3 && AllDecimal(x.s) && Parse(x.s, 10) == n)
  }

  ghost predicate WritesSomeX(x: Value) { exists n :: 1 <= n <= 255 && WritesX(x, n) }

  ghost predicate WritesSomeY(y: Value) {
    (exists bytes :: |bytes| >= 16 && WritesBytes(y, bytes)) || (y.Str? && HoldsLongHex(y.s))
  }

  ghost predicate HoldsShare(m: map<jstring, Value>) {
    && (exists k :: k in m && k in {Of("x"), Of("X")} && WritesSomeX(m[k]))
    && (exists k :: k in m && k in {Of("y"), Of("Y")} && WritesSomeY(m[k]))
  }

  predicate HoldsEnvelope(m: map<jstring, Value>) {
    {Of("envelope"), Of("holderPublicKey")} <= m.Keys || {Of("envelope"), Of("holder_public_key")} <= m.Keys
  }

  function ListedNames(): set<jstring> {
    {Of("keyShares"), Of("key_shares"), Of("keyShareEnvelopes"), Of("key_share_envelopes")}
  }

  function Kept(c: unit): jstring { if IsSpace(c) then [] else [c] }

  lemma SqueezeUnfolds(s: jstring)
    ensures Squeeze(s) == if s == [] then [] else Kept(s[0]) + Squeeze(s[1..])
  {}

  lemma {:induction false} SqueezeAppend(a: jstring, b: jstring)
    ensures Squeeze(a + b) == Squeeze(a) + Squeeze(b)
  {
    hide *;
    SqueezeUnfolds(a);
    if a == [] {
      assert a + b == b;
    } else {
      SqueezeUnfolds(a + b);
      SqueezeAppend(a[1..], b);
      assert (a + b)[1..] == a[1..] + b;
      Regroup(Kept(a[0]), Squeeze(a[1..]), Squeeze(b));
    }
  }

  lemma Regroup(a: jstring, b: jstring, c: jstring)
    ensures a + (b + c) == a + b + c
  {}

  lemma SqueezeOne(c: unit)
    ensures Squeeze([c]) == Kept(c)
  {
    SqueezeUnfolds([c]);
    assert [c][1..] == [] && Squeeze([]) == [];
  }

  lemma NextPlace(front: jstring, last: unit)
    ensures |HexPlaces(front + [last])| == |HexPlaces(front)| + (if IsHexDigit(last) then 1 else 0)
  {
    hide IsHexDigit;
    var s, places := front + [last], HexPlaces(front);
    assert |front| !in places;
    forall k ensures k in HexPlaces(s) <==> k in places || (k == |front| && IsHexDigit(last)) {}
    hide HexPlaces;
    assert HexPlaces(s) == if IsHexDigit(last) then places + {|front|} else places;
  }

  lemma NextHexAndSpace(front: jstring, last: unit)
    ensures HexAndSpace(front + [last]) <==> HexAndSpace(front) && (IsHexDigit(last) || IsSpace(last))
  {
    hide IsHexDigit, IsSpace;
    var s := front + [last];
    assert s[|front|] == last && s[..|front|] == front;
  }

  lemma NextKept(kept: jstring, c: unit)
    ensures AllHex(kept + Kept(c)) <==> AllHex(kept) && (IsHexDigit(c) || IsSpace(c))
    ensures IsHexDigit(c) || IsSpace(c) ==> |Kept(c)| == if IsHexDigit(c) then 1 else 0
  {
    assert IsSpace(c) ==> kept + Kept(c) == kept;
    var s := kept + [c];
    assert s[|kept|] == c && forall k :: 0 <= k < |kept| ==> s[k] == kept[k];
  }

  /** Between hex digits only white space is squeezed out. */
  lemma {:induction false} SqueezedRun(s: jstring)
    ensures AllHex(Squeeze(s)) <==> HexAndSpace(s)
    ensures HexAndSpace(s) ==> |Squeeze(s)| == |HexPlaces(s)|
  {
    if s == [] {
      assert HexPlaces(s) == {};
    } else {
      hide *;
      var front, last := s[..|s| - 1], s[|s| - 1];
      assert s == front + [last];
      SqueezedRun(front);
      SqueezeAppend(front, [last]);
      SqueezeOne(last);
      NextPlace(front, last);
      NextHexAndSpace(front, last);
      NextKept(Squeeze(front), last);
    }
  }

  lemma CutLater(s: jstring, rest: nat)
    requires s != [] && rest < |s|
    ensures Squeeze(s[..rest + 1]) == Kept(s[0]) + Squeeze(s[1..][..rest]) && s[rest + 1..] == s[1..][rest..]
  {
    hide Squeeze, Kept, IsSpace;
    SqueezeUnfolds(s[..rest + 1]);
    assert s[..rest + 1][1..] == s[1..][..rest];
  }

  lemma SliceBehind(a: jstring, b: jstring, n: nat)
    requires n <= |b|
    ensures (a + b)[..|a| + n] == a + b[..n] && (a + b)[|a| + n..] == b[n..]
  {}

  /** A cut of the squeezed string is a cut of the string. */
  lemma {:induction false} CutAt(s: jstring, t: nat) returns (i: nat)
    requires t <= |Squeeze(s)|
    ensures i <= |s| && Squeeze(s[..i]) == Squeeze(s)[..t] && Squeeze(s[i..]) == Squeeze(s)[t..]
  {
    SqueezeUnfolds(s);
    SqueezeUnfolds([]);
    var head := if s == [] then [] else Kept(s[0]);
    assert |head| <= 1;
    hide *;
    if t == 0 {
      i := 0;
      assert s[0..] == s && s[..0] == [];
    } else {
      var rest := CutAt(s[1..], t - |head|);
      i := rest + 1;
      CutLater(s, rest);
      SliceBehind(head, Squeeze(s[1..]), t - |head|);
    }
  }

  lemma MatchedRunIsHex(y: jstring)
    requires ShareYLike(y)
    ensures HoldsLongHex(y)
  {
    hide Squeeze, HexAndSpace, HexPlaces, IsHexDigit;
    var t := Squeeze(y);
    var p :| 0 <= p <= |t| - 32 && HexRunAt(t, p);
    var i := CutAt(y, p);
    var n := CutAt(y[i..], 32);
    assert y[i..][..n] == y[i..i + n];
    assert t[p..][..32] == t[p..p + 32];
    SqueezedRun(y[i..i + n]);
  }

  lemma HexRunIsMatched(a: jstring, b: jstring, c: jstring)
    requires HexAndSpace(b) && |HexPlaces(b)| >= 32
    ensures ShareYLike(a + b + c)
  {
    hide Squeeze, HexAndSpace, HexPlaces, IsHexDigit;
    SqueezedRun(b);
    SqueezeAppend(a, b);
    SqueezeAppend(a + b, c);
    var t, p := Squeeze(a + b + c), |Squeeze(a)|;
    assert t[p..p + 32] == Squeeze(b)[..32];
    assert HexRunAt(t, p);
  }

  /** The lenient match of lines 22-24 finds exactly the long runs. */
  lemma ShareYLikeIff(y: jstring)
    ensures ShareYLike(y) <==> HoldsLongHex(y)
  {
    hide ShareYLike, HexAndSpace, HexPlaces;
    if ShareYLike(y) { MatchedRunIsHex(y); }
    if i, j :| 0 <= i <= j <= |y| && HexAndSpace(y[i..j]) && |HexPlaces(y[i..j])| >= 32 {
      HexRunIsMatched(y[..i], y[i..j], y[j..]);
      assert y == y[..i] + y[i..j] + y[j..];
    }
  }

  lemma IsShareXIff(x: Value)
    ensures IsShareX(x) <==> WritesSomeX(x)
  {
    if IsShareX(x) {
      assert WritesX(x, if x.Num? then x.n.value else Parse(x.s, 10));
    }
  }

  lemma ByteRange(b: byte)
    ensures 0 <= b as int < 256
  {}

  lemma IsByteIntIff(v: Value)
    ensures IsByteInt(v) <==> exists b :: ByteNumber(v, b)
  {
    if b :| ByteNumber(v, b) {
      ByteRange(b);
    }
    if IsByteInt(v) {
      var n := v.n.value;
      var u := if n < 0 then n + 256 else n;
      ByteOfInt(u);
      assert ByteNumber(v, u as byte);
    }
  }

  ghost function SomeBytes(items: seq<Value>): (bytes: seq<byte>)
    requires forall i :: 0 <= i < |items| ==> IsByteInt(items[i])
    ensures ListsBytes(items, bytes)
  {
    seq(|items|, i requires 0 <= i < |items| && IsByteInt(items[i]) =>
      IsByteIntIff(items[i]); var b :| ByteNumber(items[i], b); b)
  }

  lemma ListLength(items: seq<Value>, n: nat)
    requires n > 0
    ensures BytesLikeLength(List(items)) == n <==> exists bytes :: |bytes| == n && ListsBytes(items, bytes)
  {
    if BytesLikeLength(List(items)) == n {
      var bytes := SomeBytes(items);
    }
    if bytes :| |bytes| == n && ListsBytes(items, bytes) {
      forall i | 0 <= i < |items| ensures IsByteInt(items[i]) {
        assert ByteNumber(items[i], bytes[i]);
        IsByteIntIff(items[i]);
      }
    }
  }

  function Indices(n: nat): set<jstring> { set i | 0 <= i < n :: KeyManager.Decimal(i) }

  lemma NextIndex(n: nat)
    ensures Indices(n + 1) == Indices(n) + {KeyManager.Decimal(n)} && KeyManager.Decimal(n) !in Indices(n)
    ensures forall i :: 0 <= i < n ==> KeyManager.Decimal(i) in Indices(n)
  {
    hide Numeral;
    forall i | 0 <= i < n ensures KeyManager.Decimal(i) != KeyManager.Decimal(n) {
      if KeyManager.Decimal(i) == KeyManager.Decimal(n) { NumeralInjective(i, n, 10); }
    }
  }

  lemma {:induction false} IndexCount(n: nat)
    ensures |Indices(n)| == n
  {
    if n == 0 {
      assert Indices(0) == {};
    } else {
      IndexCount(n - 1);
      NextIndex(n - 1);
    }
  }

  lemma AllIndices(m: map<jstring, Value>, n: nat)
    ensures (|m| == n && forall i :: 0 <= i < |m| ==> KeyManager.Decimal(i) in m) <==> m.Keys == Indices(n)
  {
    IndexCount(n);
    if |m| == n && forall i :: 0 <= i < |m| ==> KeyManager.Decimal(i) in m {
      assert Indices(n) <= m.Keys;
      SameSize(Indices(n), m.Keys);
    }
    if m.Keys == Indices(n) {
      forall i | 0 <= i < n ensures KeyManager.Decimal(i) in m {
        assert KeyManager.Decimal(i) in Indices(n);
      }
    }
  }

  lemma SameSize(part: set<jstring>, whole: set<jstring>)
    requires part <= whole && |part| == |whole|
    ensures part == whole
  {
    assert |whole - part| == |whole| - |part|;
    assert whole - part == {};
  }

  /** An index is no other key of the serialised shape. */
  lemma TypeIsNoIndex(n: nat)
    ensures Of("type") !in Indices(n)
  {
    forall i | 0 <= i < n ensures KeyManager.Decimal(i) != Of("type") {
      assert AllDecimal(KeyManager.Decimal(i));
      assert !IsDecimalDigit(Of("type")[0]);
    }
  }

  lemma IndexedLength(m: map<jstring, Value>, n: nat)
    ensures m.Keys == Indices(n) && (forall k :: k in m ==> IsByteInt(m[k])) <==>
            exists bytes :: |bytes| == n && IndexesBytes(m, bytes)
  {
    if m.Keys == Indices(n) && forall k :: k in m ==> IsByteInt(m[k]) {
      forall i | 0 <= i < n ensures KeyManager.Decimal(i) in m {
        assert KeyManager.Decimal(i) in Indices(n);
      }
      var items := seq(n, i requires 0 <= i < n => if KeyManager.Decimal(i) in m then m[KeyManager.Decimal(i)] else Null);
      var bytes := SomeBytes(items);
      assert IndexesBytes(m, bytes);
    }
    if bytes :| |bytes| == n && IndexesBytes(m, bytes) {
      assert m.Keys == Indices(n);
      forall k | k in m ensures IsByteInt(m[k]) {
        var i :| 0 <= i < n && k == KeyManager.Decimal(i);
        assert ByteNumber(m[k], bytes[i]);
        IsByteIntIff(m[k]);
      }
    }
  }

  lemma RecordLength(m: map<jstring, Value>, n: nat)
    requires n > 0
    ensures BytesLikeLength(Record(m)) == n <==>
            exists bytes :: |bytes| == n && (BuffersBytes(m, bytes) || IndexesBytes(m, bytes))
  {
    AllIndices(m, n);
    TypeIsNoIndex(n);
    IndexedLength(m, n);
    if Of("type") in m && m[Of("type")] == Str(Of("Buffer")) && Of("data") in m && m[Of("data")].List? {
      ListLength(m[Of("data")].items, n);
      assert m.Keys != Indices(n);
    }
  }

  /** Lines 41-51 measure exactly the values that write bytes, and by their number. */
  lemma BytesLikeLengthIff(y: Value, n: nat)
    requires n > 0
    ensures BytesLikeLength(y) == n <==> exists bytes :: |bytes| == n && WritesBytes(y, bytes)
  {
    hide ListsBytes, BuffersBytes, IndexesBytes;
    match y
    case Bytes(bytes) => assert WritesBytes(y, bytes);
    case List(items) =>
      hide BytesLikeLength;
      ListLength(items, n);
      assert forall bytes :: WritesBytes(y, bytes) <==> ListsBytes(items, bytes);
    case Record(m) =>
      hide BytesLikeLength;
      RecordLength(m, n);
      assert forall bytes :: WritesBytes(y, bytes) <==> BuffersBytes(m, bytes) || IndexesBytes(m, bytes);
    case _ =>
  }

  lemma IsShareYIff(y: Value)
    ensures IsShareY(y) <==> WritesSomeY(y)
  {
    hide WritesBytes, BytesLikeLength, ShareYLike, HoldsLongHex;
    if y.Str? { ShareYLikeIff(y.s); }
    var n := BytesLikeLength(y);
    if n >= 16 { BytesLikeLengthIff(y, n); }
    if bytes :| |bytes| >= 16 && WritesBytes(y, bytes) { BytesLikeLengthIff(y, |bytes|); }
  }

  /** The structural test of lines 108-118 holds exactly of records that write a share or hold an envelope. */
  lemma LooksLikeShareIff(m: map<jstring, Value>)
    ensures LooksLikeShare(m) <==> HoldsShare(m) || HoldsEnvelope(m)
  {
    hide IsShareX, IsShareY, WritesSomeX, WritesSomeY, Of;
    forall k | k in m ensures (IsShareX(m[k]) <==> WritesSomeX(m[k])) && (IsShareY(m[k]) <==> WritesSomeY(m[k])) {
      IsShareXIff(m[k]);
      IsShareYIff(m[k]);
    }
    assert HoldsShare(m) <==>
        && ((Of("x") in m && WritesSomeX(m[Of("x")])) || (Of("X") in m && WritesSomeX(m[Of("X")])))
        && ((Of("y") in m && WritesSomeY(m[Of("y")])) || (Of("Y") in m && WritesSomeY(m[Of("Y")])));
  }

  // ---- the recursive scan ----

  predicate HasDuplicates(text: jstring) { DuplicateKeys.Scan(text, []) == Some(true) }

  /** lines 140-177: `scan` returns instead of throwing */
  ghost predicate Accepts(v: Value, depth: nat, numbers: NumberReader)
    decreases Longest(v), v
  {
    LongestInside(v);
    match v
    case Str(s) =>
      DecodingShortens(s, numbers);
      var decoded := Decode(s, numbers);
      decoded.None? || (!HasDuplicates(s) && Accepts(decoded.value, depth + 1, numbers))
    case List(items) =>
      depth <= MAX_DEPTH && forall i :: 0 <= i < |items| ==> Accepts(items[i], depth + 1, numbers)
    case Record(m) =>
      && depth <= MAX_DEPTH && !LooksLikeShare(m)
      && forall k :: k in m ==> !InDenyList(k) && Accepts(m[k], depth + 1, numbers)
    case _ => true
  }

  /** lines 93-102 */
  ghost predicate PayloadAccepted(wire: jstring, numbers: NumberReader) {
    var parsed := Decode(wire, numbers);
    parsed.Some? && !HasDuplicates(wire) && Accepts(parsed.value, 0, numbers)
  }

  // ---- what acceptance means ----

  /** One step into a value: an element, a member, or what a string decodes to. */
  datatype Step = Item(i: nat) | Name(k: jstring) | Decoded

  ghost function Next(v: Value, step: Step, numbers: NumberReader): Option<Value> {
    match step
    case Item(i) => if v.List? && i < |v.items| then Some(v.items[i]) else None
    case Name(k) => if v.Record? && k in v.fields then Some(v.fields[k]) else None
    case Decoded => if v.Str? then Decode(v.s, numbers) else None
  }

  /** The value at the end of a path, if the path exists. */
  ghost function Follow(v: Value, path: seq<Step>, numbers: NumberReader): Option<Value>
    decreases |path|
  {
    if path == [] then Some(v)
    else
      var next := Next(v, path[0], numbers);
      if next.None? then None else Follow(next.value, path[1..], numbers)
  }

  /** The text is JSON in which some object repeats a name. */
  ghost predicate RepeatsName(text: jstring) {
    exists d :: IsText(text, d) && DuplicateKeys.HasRepeatedName(d.node)
  }

  /** On valid JSON the duplicate check is about the text's own tree. */
  lemma DuplicatesAreRepeatedNames(text: jstring, document: Spaced)
    requires IsText(text, document)
    ensures HasDuplicates(text) <==> DuplicateKeys.HasRepeatedName(document.node)
  {
    ScanRendering.ScanDecides(document);
  }

  lemma RepeatsNameIff(text: jstring)
    ensures RepeatsName(text) <==> (exists d :: IsText(text, d)) && HasDuplicates(text)
  {
    hide DuplicateKeys.HasRepeatedName, HasDuplicates, IsText;
    forall d | IsText(text, d) ensures HasDuplicates(text) <==> DuplicateKeys.HasRepeatedName(d.node) {
      DuplicatesAreRepeatedNames(text, d);
    }
  }

  /** What is refused at a node of this depth, said without the tests `scan` makes. */
  ghost predicate Refused(v: Value, depth: nat) {
    match v
    case Str(s) => RepeatsName(s)
    case List(_) => depth > 32
    case Record(m) => depth > 32 || HoldsShare(m) || HoldsEnvelope(m) || m.Keys * ListedNames() != {}
    case _ => false
  }

  ghost predicate RefusedAt(v: Value, depth: nat, path: seq<Step>, numbers: NumberReader) {
    Follow(v, path, numbers).Some? && Refused(Follow(v, path, numbers).value, depth + |path|)
  }

  lemma ListedNamesIff(m: map<jstring, Value>)
    ensures m.Keys * ListedNames() != {} <==> exists k :: k in m && InDenyList(k)
  {
    hide Of;
    if k :| k in m && InDenyList(k) {
      assert k in m.Keys * ListedNames();
    }
    if m.Keys * ListedNames() != {} {
      var k :| k in m.Keys * ListedNames();
      assert k in m && InDenyList(k);
    }
  }

  lemma AcceptsUnfolds(v: Value, depth: nat, numbers: NumberReader)
    ensures Accepts(v, depth, numbers) <==>
              !Refused(v, depth)
              && forall step :: Next(v, step, numbers).Some? ==> Accepts(Next(v, step, numbers).value, depth + 1, numbers)
  {
    hide LooksLikeShare, InDenyList, HasDuplicates, RepeatsName, HoldsShare, HoldsEnvelope, ListedNames;
    match v
    case Str(s) =>
      hide IsText;
      RepeatsNameIff(s);
      assert Next(v, Decoded, numbers) == Decode(s, numbers);
    case List(items) =>
      forall i | 0 <= i < |items| ensures Next(v, Item(i), numbers) == Some(items[i]) {}
    case Record(m) =>
      LooksLikeShareIff(m);
      ListedNamesIff(m);
      forall k | k in m ensures Next(v, Name(k), numbers) == Some(m[k]) {}
    case _ =>
  }

  lemma NextIsSmaller(v: Value, step: Step, numbers: NumberReader)
    requires Next(v, step, numbers).Some?
    ensures var w := Next(v, step, numbers).value;
            Longest(w) < Longest(v) || (Longest(w) == Longest(v) && w < v)
  {
    LongestInside(v);
    if v.Str? { DecodingShortens(v.s, numbers); }
    if v.List? { assert v.items[step.i] in v.items; }
  }

  /**
   * `scan` accepts exactly when no node it can reach, through containers and
   * through strings that decode, is refused at the depth of its path.
   */
  lemma {:induction false} AcceptsIffNothingRefused(v: Value, depth: nat, numbers: NumberReader)
    ensures Accepts(v, depth, numbers) <==> forall path :: !RefusedAt(v, depth, path, numbers)
    decreases Longest(v), v
  {
    hide Refused, Accepts, Next, RefusedAt, Follow;
    var below := depth + 1;
    AcceptsUnfolds(v, depth, numbers);
    RefusedHere(v, depth, numbers);
    forall step | Next(v, step, numbers).Some?
      ensures var next := Next(v, step, numbers).value;
              Accepts(next, below, numbers) <==> forall path :: !RefusedAt(next, below, path, numbers)
    {
      NextIsSmaller(v, step, numbers);
      AcceptsIffNothingRefused(Next(v, step, numbers).value, below, numbers);
    }
    if Accepts(v, depth, numbers) {
      forall path ensures !RefusedAt(v, depth, path, numbers) {
        if path != [] {
          RefusedFurther(v, depth, path[0], path[1..], numbers);
          assert path == [path[0]] + path[1..];
        }
      }
    } else if forall step :: Next(v, step, numbers).Some? ==> Accepts(Next(v, step, numbers).value, below, numbers) {
      assert RefusedAt(v, depth, [], numbers);
    } else {
      var step :| Next(v, step, numbers).Some? && !Accepts(Next(v, step, numbers).value, below, numbers);
      var path :| RefusedAt(Next(v, step, numbers).value, below, path, numbers);
      RefusedFurther(v, depth, step, path, numbers);
    }
  }

  lemma RefusedHere(v: Value, depth: nat, numbers: NumberReader)
    ensures RefusedAt(v, depth, [], numbers) <==> Refused(v, depth)
  {
    hide Refused;
  }

  lemma RefusedFurther(v: Value, depth: nat, step: Step, path: seq<Step>, numbers: NumberReader)
    ensures RefusedAt(v, depth, [step] + path, numbers) <==>
              Next(v, step, numbers).Some? && RefusedAt(Next(v, step, numbers).value, depth + 1, path, numbers)
  {
    hide Refused, Next;
    assert ([step] + path)[1..] == path;
  }

  /** Acceptance at a depth implies acceptance at every smaller one. */
  lemma AcceptedHigherUp(v: Value, depth: nat, smaller: nat, numbers: NumberReader)
    requires smaller <= depth && Accepts(v, depth, numbers)
    ensures Accepts(v, smaller, numbers)
  {
    hide Accepts, HoldsShare, HoldsEnvelope, RepeatsName, ListedNames;
    AcceptsIffNothingRefused(v, depth, numbers);
    AcceptsIffNothingRefused(v, smaller, numbers);
    forall path ensures !RefusedAt(v, smaller, path, numbers) {
      assert !RefusedAt(v, depth, path, numbers);
    }
  }

  // ---- the guard's language contains the share parser's ----

  /** `String(x)` where it can be a short decimal: a fraction or NaN never is. */
  function XText(x: Value): Option<jstring> {
    match x
    case Str(s) => Some(s)
    case Num(n) => if n.Integer? then Some(KeyManager.Decimal(n.value)) else None
    case _ => None
  }

  /** The record's x and y are read by `reconstructKeyFromShares` as a share of `length` bytes. */
  ghost predicate ParsesAsShare(m: map<jstring, Value>, length: nat) {
    && Of("x") in m && Of("y") in m && m[Of("y")].Str? && XText(m[Of("x")]).Some?
    && var share := KeyManager.ParseShare(
                      KeyManager.StringShare(XText(m[Of("x")]).value, m[Of("y")].s, []));
       share.Some? && Shamir.InRange(share.value.x) && |share.value.y| == length
  }

  lemma {:induction false} SqueezeHex(s: jstring)
    requires forall i :: 0 <= i < |s| ==> !IsSpace(s[i])
    ensures Squeeze(s) == s
  {
    if s != [] { SqueezeHex(s[1..]); }
  }

  lemma StrictHexIsShareY(y: jstring)
    requires Hex.Decode(y).Some? && |Hex.Decode(y).value| >= MIN_SHARE_BYTES
    ensures ShareYLike(y)
  {
    var body := Hex.Body(y);
    var start := |y| - |body|;
    assert y[start..] == body;
    forall i | 0 <= i < |y| ensures !IsSpace(y[i]) {
      if i >= start { assert y[i] == body[i - start]; }
    }
    SqueezeHex(y);
    assert y[start..start + 2 * MIN_SHARE_BYTES] == body[..2 * MIN_SHARE_BYTES];
    assert HexRunAt(Squeeze(y), start);
  }

  lemma ParserXIsShareX(x: Value)
    requires XText(x).Some? && KeyManager.IsShortDecimal(XText(x).value)
    requires 1 <= Parse(XText(x).value, 10) <= 255
    ensures IsShareX(x)
  {
    if x.Num? {
      var v := x.n.value;
      var first := KeyManager.Decimal(v)[0];
      assert IsDecimalDigit(first);
      assert v >= 0;
      ParseNumeral(v, 10);
    }
  }

  /** Whatever the share parser reads as a share of 16 bytes or more, the guard takes for one. */
  lemma ParserInsideGuard(m: map<jstring, Value>, length: nat)
    requires length >= MIN_SHARE_BYTES && ParsesAsShare(m, length)
    ensures LooksLikeShare(m)
  {
    hide Parse, Hex.Decode, ShareYLike, Of, KeyManager.Decimal;
    ParserXIsShareX(m[Of("x")]);
    StrictHexIsShareY(m[Of("y")].s);
  }

  /**
   * If a payload is accepted, nothing reachable in it, also through strings that
   * decode as JSON, is a record the share parser reads as a share of a key of 16
   * bytes or more.
   */
  lemma AcceptedPayloadHoldsNoShare(wire: jstring, numbers: NumberReader, path: seq<Step>, length: nat)
    requires PayloadAccepted(wire, numbers) && length >= MIN_SHARE_BYTES
    requires var v := Follow(Decode(wire, numbers).value, path, numbers); v.Some? && v.value.Record?
    ensures !ParsesAsShare(Follow(Decode(wire, numbers).value, path, numbers).value.fields, length)
  {
    hide LooksLikeShare, ParsesAsShare, Accepts, Decode, Follow;
    var root := Decode(wire, numbers).value;
    AcceptsIffNothingRefused(root, 0, numbers);
    assert !RefusedAt(root, 0, path, numbers);
    var m := Follow(root, path, numbers).value.fields;
    if ParsesAsShare(m, length) {
      ParserInsideGuard(m, length);
      LooksLikeShareIff(m);
    }
  }

  /** A share of a split key, written with its decimal x and hex y, is refused wherever it stands. */
  lemma SplitShareIsRefused(
    key: seq<byte>, coins: seq<Polynomials.poly>, x: int, m: map<jstring, Value>, v: Value, path: seq<Step>,
    numbers: NumberReader)
    requires |coins| == |key| && |key| >= MIN_SHARE_BYTES && 1 <= x <= 255
    requires Of("x") in m && (m[Of("x")] == Num(Shamir.Integer(x)) || m[Of("x")] == Str(KeyManager.Decimal(x)))
    requires Of("y") in m && m[Of("y")] == Str(Hex.Encode(Shamir.ShareAt(key, coins, x).y))
    requires Follow(v, path, numbers) == Some(Record(m))
    ensures !Accepts(v, 0, numbers)
  {
    hide HoldsShare, Parse, Hex.Decode, Hex.Encode, ShareYLike, Of, KeyManager.Decimal, Accepts, Follow, Polynomials.Eval, LooksLikeShare;
    Hex.RoundTrip(Shamir.ShareAt(key, coins, x).y);
    KeyManager.DecimalOfX(x);
    assert ParsesAsShare(m, |key|);
    ParserInsideGuard(m, |key|);
    LooksLikeShareIff(m);
    AcceptsIffNothingRefused(v, 0, numbers);
    assert RefusedAt(v, 0, path, numbers);
  }

  // ---- what is refused wherever it stands, and what is not ----

  lemma RefusedWhereItStands(v: Value, path: seq<Step>, numbers: NumberReader, w: Value)
    requires Follow(v, path, numbers) == Some(w) && Refused(w, |path|)
    ensures !Accepts(v, 0, numbers)
  {
    hide Refused, Accepts, Follow;
    AcceptsIffNothingRefused(v, 0, numbers);
    assert RefusedAt(v, 0, path, numbers);
  }

  /** A share of a split key is refused wherever it stands and in whatever way its bytes are written. */
  lemma WrittenShareIsRefused(
    key: seq<byte>, coins: seq<Polynomials.poly>, x: int, xName: string, yName: string, m: map<jstring, Value>,
    v: Value, path: seq<Step>, numbers: NumberReader)
    requires |coins| == |key| && |key| >= 16 && 1 <= x <= 255
    requires xName in {"x", "X"} && Of(xName) in m && WritesX(m[Of(xName)], x)
    requires yName in {"y", "Y"} && Of(yName) in m && WritesBytes(m[Of(yName)], Shamir.ShareAt(key, coins, x).y)
    requires Follow(v, path, numbers) == Some(Record(m))
    ensures !Accepts(v, 0, numbers)
  {
    hide Accepts, Follow, WritesX, WritesBytes, Of, Polynomials.Eval;
    var y := Shamir.ShareAt(key, coins, x).y;
    assert |y| == |key|;
    assert WritesSomeX(m[Of(xName)]) && WritesSomeY(m[Of(yName)]);
    assert HoldsShare(m);
    RefusedWhereItStands(v, path, numbers, Record(m));
  }

  /** The bytes as numbers, unsigned as in a `Uint8Array` or signed as in an `Int8Array`. */
  function Numbers(bytes: seq<byte>, signed: bool): (items: seq<Value>)
    ensures ListsBytes(items, bytes)
  {
    seq(|bytes|, i requires 0 <= i < |bytes| =>
      var b := bytes[i] as int; Num(Shamir.Integer(if signed && b >= 128 then b - 256 else b)))
  }

  /** An object with these items at "0", "1" and so on. */
  function Indexed(items: seq<Value>): map<jstring, Value> {
    if items == [] then map[]
    else Indexed(items[..|items| - 1])[KeyManager.Decimal(|items| - 1) := items[|items| - 1]]
  }

  lemma {:induction false} IndexedIs(items: seq<Value>)
    ensures Indexed(items).Keys == Indices(|items|)
    ensures forall i :: 0 <= i < |items| ==>
              KeyManager.Decimal(i) in Indexed(items) && Indexed(items)[KeyManager.Decimal(i)] == items[i]
  {
    hide KeyManager.Decimal, Indices;
    var n := |items| - 1;
    if items == [] {
      assert Indices(0) == {} by { IndexCount(0); }
    } else {
      IndexedIs(items[..n]);
      NextIndex(n);
    }
  }

  /** All the forms in which serialising leaves arrays, buffers and typed arrays write their bytes. */
  lemma FormsWriteTheirBytes(bytes: seq<byte>, signed: bool)
    ensures WritesBytes(Bytes(bytes), bytes)
    ensures WritesBytes(List(Numbers(bytes, signed)), bytes)
    ensures WritesBytes(Record(map[Of("type") := Str(Of("Buffer")), Of("data") := List(Numbers(bytes, signed))]), bytes)
    ensures WritesBytes(Record(Indexed(Numbers(bytes, signed))), bytes)
  {
    var items := Numbers(bytes, signed);
    assert Of("type")[0] != Of("data")[0];
    var m := Indexed(items);
    IndexedIs(items);
    forall i | 0 <= i < |bytes| ensures KeyManager.Decimal(i) in m && ByteNumber(m[KeyManager.Decimal(i)], bytes[i]) {
      assert KeyManager.Decimal(i) in Indices(|items|);
    }
    assert IndexesBytes(m, bytes);
  }

  lemma EnvelopeIsRefused(m: map<jstring, Value>, v: Value, path: seq<Step>, numbers: NumberReader)
    requires Of("envelope") in m && (Of("holderPublicKey") in m || Of("holder_public_key") in m)
    requires Follow(v, path, numbers) == Some(Record(m))
    ensures !Accepts(v, 0, numbers)
  {
    hide Accepts, Follow, HoldsShare, Of;
    RefusedWhereItStands(v, path, numbers, Record(m));
  }

  lemma ListedNameIsRefused(name: string, m: map<jstring, Value>, v: Value, path: seq<Step>, numbers: NumberReader)
    requires name in {"keyShares", "key_shares", "keyShareEnvelopes", "key_share_envelopes"} && Of(name) in m
    requires Follow(v, path, numbers) == Some(Record(m))
    ensures !Accepts(v, 0, numbers)
  {
    hide Accepts, Follow, HoldsShare, Of;
    assert Of(name) in m.Keys * ListedNames();
    RefusedWhereItStands(v, path, numbers, Record(m));
  }

  /** A record is accepted exactly if it has none of these shapes and everything in it is accepted one level down. */
  lemma RecordAcceptedIff(m: map<jstring, Value>, depth: nat, numbers: NumberReader)
    ensures Accepts(Record(m), depth, numbers) <==>
              && depth <= 32 && !HoldsShare(m) && !HoldsEnvelope(m)
              && (forall name :: name in {"keyShares", "key_shares", "keyShareEnvelopes", "key_share_envelopes"} ==>
                    Of(name) !in m)
              && forall k :: k in m ==> Accepts(m[k], depth + 1, numbers)
  {
    hide HoldsShare, HoldsEnvelope, LooksLikeShare, Of;
    LooksLikeShareIff(m);
    assert (exists k :: k in m && InDenyList(k)) <==>
           exists name :: name in {"keyShares", "key_shares", "keyShareEnvelopes", "key_share_envelopes"} && Of(name) in m;
  }

  /** A string is accepted exactly if it is no JSON, or JSON that repeats no name and whose value is accepted one level down. */
  lemma TextAcceptedIff(s: jstring, depth: nat, numbers: NumberReader)
    ensures Accepts(Str(s), depth, numbers) <==>
              forall d :: IsText(s, d) ==>
                            !DuplicateKeys.HasRepeatedName(d.node) && Accepts(ValueOf(d.node, numbers), depth + 1, numbers)
  {
    hide IsText, ValueOf, HasDuplicates, DuplicateKeys.HasRepeatedName;
    forall d | IsText(s, d)
      ensures Decode(s, numbers) == Some(ValueOf(d.node, numbers))
      ensures HasDuplicates(s) <==> DuplicateKeys.HasRepeatedName(d.node)
    {
      DecodeIs(s, d, numbers);
      DuplicatesAreRepeatedNames(s, d);
    }
  }

  /** A payload goes through exactly if it is JSON, repeats no name and holds nothing refused at any reachable node. */
  lemma PayloadAcceptedIff(wire: jstring, numbers: NumberReader)
    ensures PayloadAccepted(wire, numbers) <==>
              exists d :: IsText(wire, d) && !DuplicateKeys.HasRepeatedName(d.node)
                       && forall path :: !RefusedAt(ValueOf(d.node, numbers), 0, path, numbers)
  {
    hide IsText, ValueOf, Accepts, RefusedAt, HasDuplicates, DuplicateKeys.HasRepeatedName;
    if d :| IsText(wire, d) {
      DecodeIs(wire, d, numbers);
      DuplicatesAreRepeatedNames(wire, d);
      AcceptsIffNothingRefused(ValueOf(d.node, numbers), 0, numbers);
      assert forall e :: IsText(wire, e) ==> e == d by {
        forall e | IsText(wire, e) ensures e == d { DecodeIs(wire, e, numbers); }
      }
    }
  }

  ghost predicate LastNamed(fields: seq<Json.Field>, k: jstring, f: Json.Field) {
    exists i :: 0 <= i < |fields| && fields[i] == f && NameOf(f) == k
             && forall j :: i < j < |fields| ==> NameOf(fields[j]) != k
  }

  /** A record's names are those of its members, and each has the value of the last member of that name. */
  lemma {:induction false} LastMemberWins(fields: seq<Json.Field>, k: jstring, numbers: NumberReader)
    ensures k in FieldsOf(fields, numbers) <==> exists f :: f in fields && NameOf(f) == k
    ensures forall f :: LastNamed(fields, k, f) ==>
              k in FieldsOf(fields, numbers) && FieldsOf(fields, numbers)[k] == ValueOf(f.value.node, numbers)
  {
    hide NameOf, ValueOf;
    if fields != [] {
      var rest := fields[1..];
      LastMemberWins(rest, k, numbers);
      assert fields == [fields[0]] + rest;
      forall f | LastNamed(fields, k, f) ensures LastNamed(rest, k, f) || (f == fields[0] && forall g :: g in rest ==> NameOf(g) != k) {
        LastIsLater(fields, k, f);
      }
    }
  }

  lemma LastIsLater(fields: seq<Json.Field>, k: jstring, f: Json.Field)
    requires fields != [] && LastNamed(fields, k, f)
    ensures LastNamed(fields[1..], k, f) || (f == fields[0] && forall g :: g in fields[1..] ==> NameOf(g) != k)
    ensures NameOf(f) == k
  {
    hide NameOf;
    var i :| 0 <= i < |fields| && fields[i] == f && NameOf(f) == k && forall j :: i < j < |fields| ==> NameOf(fields[j]) != k;
    if i > 0 {
      var rest := fields[1..];
      assert rest[i - 1] == f && forall j :: i - 1 < j < |rest| ==> rest[j] == fields[j + 1];
    }
  }
}

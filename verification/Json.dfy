/**
 * JSON texts as sections 2 to 7 of RFC 8259 define them: a syntax tree that keeps
 * whitespace and escapes, its rendering, and the value it denotes.
 */
module Json {
  import opened Wrappers
  import opened Text

  const QUOTE: unit := 0x22
  const BACKSLASH: unit := 0x5c
  const LBRACE: unit := 0x7b
  const RBRACE: unit := 0x7d
  const LBRACKET: unit := 0x5b
  const RBRACKET: unit := 0x5d
  const COMMA: unit := 0x2c
  const COLON: unit := 0x3a

  predicate IsBlank(c: unit) { c == 0x20 || c == 0x09 || c == 0x0a || c == 0x0d }

  predicate AllBlank(s: jstring) { forall i :: 0 <= i < |s| ==> IsBlank(s[i]) }

  // ---- strings: section 7 ----

  /** The code unit a two-character escape stands for. */
  function ShortEscape(c: unit): Option<unit> {
    if c == QUOTE || c == BACKSLASH || c == '/' as int then Some(c)
    else if c == 'b' as int then Some(0x08)
    else if c == 'f' as int then Some(0x0c)
    else if c == 'n' as int then Some(0x0a)
    else if c == 'r' as int then Some(0x0d)
    else if c == 't' as int then Some(0x09)
    else None
  }

  /** The code unit that `\uXXXX` with these digits stands for. */
  function UnitOf(digits: jstring): unit
    requires |digits| == 4 && AllHex(digits)
  {
    ParseBound(digits);
    assert Power(16, 1) == 16 * Power(16, 0) && Power(16, 2) == 16 * Power(16, 1)
        && Power(16, 3) == 16 * Power(16, 2) && Power(16, 4) == 16 * Power(16, 3);
    Parse(digits, 16)
  }

  /** What the text between two quotes decodes to; none if it is no string body. */
  function Unescape(raw: jstring): (r: Option<jstring>)
    ensures r.Some? ==> |r.value| <= |raw|
    decreases |raw|
  {
    if raw == [] then Some([])
    else if raw[0] == QUOTE || raw[0] < 0x20 then None
    else if raw[0] != BACKSLASH then Prepend(raw[0], Unescape(raw[1..]))
    else if |raw| < 2 then None
    else if ShortEscape(raw[1]).Some? then Prepend(ShortEscape(raw[1]).value, Unescape(raw[2..]))
    else if raw[1] == 'u' as int && |raw| >= 6 && AllHex(raw[2..6]) then Prepend(UnitOf(raw[2..6]), Unescape(raw[6..]))
    else None
  }

  function Prepend(c: unit, s: Option<jstring>): Option<jstring> {
    if s.None? then None else Some([c] + s.value)
  }

  /** The characters behind a backslash and what they stand for. */
  const ESCAPES: set<(int, int)> := {
    (0x22, 0x22), (0x5c, 0x5c), (0x2f, 0x2f), (0x62, 0x08), (0x66, 0x0c), (0x6e, 0x0a), (0x72, 0x0d), (0x74, 0x09)}

  /** The ways of section 7 to write one code unit. */
  predicate Writes(piece: jstring, c: unit) {
    || (piece == [c] && c >= 0x20 && c != 0x22 && c != 0x5c)
    || (|piece| == 2 && piece[0] == 0x5c && (piece[1], c) in ESCAPES)
    || (|piece| == 6 && piece[0] == 0x5c && piece[1] == 0x75 && AllHex(piece[2..]) && Parse(piece[2..], 16) == c)
  }

  /** The text writes these code units one behind the other. */
  ghost predicate Spells(raw: jstring, s: jstring)
    decreases |s|
  {
    if s == [] then raw == []
    else exists n :: 0 < n <= |raw| && Writes(raw[..n], s[0]) && Spells(raw[n..], s[1..])
  }

  /** How many characters the next code unit takes, and which it is, by the decoder's own tests. */
  lemma NextUnit(raw: jstring) returns (n: nat, c: unit)
    requires raw != [] && Unescape(raw).Some?
    ensures 0 < n <= |raw| && Writes(raw[..n], c) && Unescape(raw[n..]).Some?
    ensures Unescape(raw) == Some([c] + Unescape(raw[n..]).value)
  {
    if raw[0] != BACKSLASH {
      n, c := 1, raw[0];
    } else if ShortEscape(raw[1]).Some? {
      n, c := 2, ShortEscape(raw[1]).value;
    } else {
      n, c := 6, UnitOf(raw[2..6]);
      assert raw[..6][2..] == raw[2..6];
    }
  }

  lemma PlainUnit(raw: jstring)
    requires raw != [] && raw[0] >= 0x20 && raw[0] != QUOTE && raw[0] != BACKSLASH
    ensures Unescape(raw) == Prepend(raw[0], Unescape(raw[1..]))
  {}

  lemma ShortUnit(raw: jstring, c: unit)
    requires |raw| >= 2 && raw[0] == BACKSLASH && ShortEscape(raw[1]) == Some(c)
    ensures Unescape(raw) == Prepend(c, Unescape(raw[2..]))
  {
    hide ShortEscape;
  }

  lemma HexUnit(raw: jstring)
    requires |raw| >= 6 && raw[0] == BACKSLASH && raw[1] == 'u' as int && AllHex(raw[2..6])
    ensures Unescape(raw) == Prepend(UnitOf(raw[2..6]), Unescape(raw[6..]))
  {
    assert ShortEscape(raw[1]) == None;
    hide ShortEscape, UnitOf;
  }

  lemma EscapeTable(e: unit, c: unit)
    ensures ShortEscape(e) == Some(c) <==> (e as int, c as int) in ESCAPES
  {}

  lemma WrittenUnit(raw: jstring, n: nat, c: unit)
    requires 0 < n <= |raw| && Writes(raw[..n], c)
    ensures Unescape(raw) == Prepend(c, Unescape(raw[n..]))
  {
    hide Unescape, ShortEscape, Parse;
    if n == 1 {
      PlainUnit(raw);
    } else if n == 2 {
      EscapeTable(raw[1], c);
      ShortUnit(raw, c);
    } else {
      assert raw[..6][2..] == raw[2..6];
      HexUnit(raw);
    }
  }

  /** Decoding a string body gives exactly the code units the body writes. */
  lemma {:induction false} UnescapeIff(raw: jstring, s: jstring)
    ensures Unescape(raw) == Some(s) <==> Spells(raw, s)
    decreases |raw|
  {
    hide Unescape, Writes;
    UnescapeNothing();
    if Unescape(raw) == Some(s) && raw != [] {
      var n, c := NextUnit(raw);
      assert s == [c] + Unescape(raw[n..]).value;
      UnescapeIff(raw[n..], s[1..]);
    }
    if Spells(raw, s) && s != [] {
      var n :| 0 < n <= |raw| && Writes(raw[..n], s[0]) && Spells(raw[n..], s[1..]);
      WrittenUnit(raw, n, s[0]);
      UnescapeIff(raw[n..], s[1..]);
      assert s == [s[0]] + s[1..];
    }
  }

  lemma UnescapeNothing()
    ensures Unescape([]) == Some([])
  {}

  // ---- numbers: section 6 ----

  /** The length of the run of decimal digits at the front of `s`. */
  function DigitRun(s: jstring): (n: nat)
    ensures n <= |s| && forall i :: 0 <= i < n ==> IsDecimalDigit(s[i])
  {
    if s == [] || !IsDecimalDigit(s[0]) then 0 else 1 + DigitRun(s[1..])
  }

  /** `[ minus ] int [ frac ] [ exp ]` */
  predicate IsNumber(raw: jstring) {
    var unsigned := if raw != [] && raw[0] == '-' as int then raw[1..] else raw;
    var n := DigitRun(unsigned);
    n > 0 && (unsigned[0] == '0' as int ==> n == 1) && IsFraction(unsigned[n..])
  }

  predicate IsFraction(s: jstring) {
    if s != [] && s[0] == '.' as int
    then DigitRun(s[1..]) > 0 && IsExponent(s[1 + DigitRun(s[1..])..])
    else IsExponent(s)
  }

  predicate IsExponent(s: jstring) {
    s == []
    || ((s[0] == 'e' as int || s[0] == 'E' as int)
        && var t := if |s| > 1 && (s[1] == '+' as int || s[1] == '-' as int) then s[2..] else s[1..];
           DigitRun(t) > 0 && DigitRun(t) == |t|)
  }

  predicate IsLiteral(raw: jstring) { raw == Of("true") || raw == Of("false") || raw == Of("null") }

  // ---- the syntax tree; `gap` is the whitespace inside an empty container ----

  datatype Node =
    | Token(raw: jstring)
    | Quoted(raw: jstring)
    | Elements(items: seq<Spaced>, gap: jstring)
    | Members(fields: seq<Field>, gap: jstring)

  /** A value with the whitespace around it; a whole text is one of these. */
  datatype Spaced = Spaced(before: jstring, node: Node, after: jstring)

  datatype Field = Field(before: jstring, name: jstring, after: jstring, value: Spaced)

  predicate Grammatical(n: Node)
    decreases n, 1
  {
    match n
    case Token(raw) => IsLiteral(raw) || IsNumber(raw)
    case Quoted(raw) => Unescape(raw).Some?
    case Elements(items, gap) => AllBlank(gap) && (items != [] ==> gap == []) && GrammaticalItems(items)
    case Members(fields, gap) => AllBlank(gap) && (fields != [] ==> gap == []) && GrammaticalFields(fields)
  }

  predicate GrammaticalSpaced(s: Spaced)
    decreases s, 0
  {
    AllBlank(s.before) && AllBlank(s.after) && Grammatical(s.node)
  }

  predicate GrammaticalItems(items: seq<Spaced>)
    decreases items, 0
  {
    items == [] || (GrammaticalSpaced(items[0]) && GrammaticalItems(items[1..]))
  }

  predicate GrammaticalFields(fields: seq<Field>)
    decreases fields, 0
  {
    fields == []
    || (&& AllBlank(fields[0].before) && AllBlank(fields[0].after) && Unescape(fields[0].name).Some?
        && GrammaticalSpaced(fields[0].value) && GrammaticalFields(fields[1..]))
  }

  function Render(n: Node): jstring
    decreases n, 1
  {
    match n
    case Token(raw) => raw
    case Quoted(raw) => [QUOTE] + raw + [QUOTE]
    case Elements(items, gap) => [LBRACKET] + (if items == [] then gap else RenderItems(items)) + [RBRACKET]
    case Members(fields, gap) => [LBRACE] + (if fields == [] then gap else RenderFields(fields)) + [RBRACE]
  }

  function RenderSpaced(s: Spaced): jstring
    decreases s, 0
  {
    s.before + Render(s.node) + s.after
  }

  function RenderItems(items: seq<Spaced>): jstring
    decreases items, 0
  {
    if items == [] then []
    else RenderSpaced(items[0]) + (if |items| == 1 then [] else [COMMA] + RenderItems(items[1..]))
  }

  function RenderField(f: Field): jstring
    decreases f, 0
  {
    f.before + [QUOTE] + f.name + [QUOTE] + f.after + [COLON] + RenderSpaced(f.value)
  }

  function RenderFields(fields: seq<Field>): jstring
    decreases fields, 0
  {
    if fields == [] then []
    else RenderField(fields[0]) + (if |fields| == 1 then [] else [COMMA] + RenderFields(fields[1..]))
  }

  /** The decoded name of a field. */
  function NameOf(f: Field): jstring {
    if Unescape(f.name).Some? then Unescape(f.name).value else []
  }
}

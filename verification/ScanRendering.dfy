/**
 * The duplicate-name scan on every rendering of every syntax tree, whatever its
 * whitespace, escapes and nesting.
 */
module ScanRendering {
  import opened Wrappers
  import opened Text
  import opened Json
  import opened DuplicateKeys

  // ---- text the scan passes over ----

  predicate Inert(c: unit) {
    c !in [LBRACE, RBRACE, LBRACKET, RBRACKET, COMMA, COLON, QUOTE]
  }

  predicate AllInert(s: jstring) { forall i :: 0 <= i < |s| ==> Inert(s[i]) }

  lemma {:induction false} ScanInert(s: jstring, rest: jstring, stack: seq<Frame>)
    requires AllInert(s)
    ensures Scan(s + rest, stack) == Scan(rest, stack)
    decreases |s|
  {
    if s == [] {
      assert s + rest == rest;
    } else {
      assert (s + rest)[1..] == s[1..] + rest;
      ScanInert(s[1..], rest, stack);
    }
  }

  lemma BlankIsInert(s: jstring)
    requires AllBlank(s)
    ensures AllInert(s)
  {}

  predicate IsNumberUnit(c: unit) {
    IsDecimalDigit(c) || c == '-' as int || c == '+' as int || c == '.' as int || c == 'e' as int || c == 'E' as int
  }

  predicate AllNumberUnits(s: jstring) { forall i :: 0 <= i < |s| ==> IsNumberUnit(s[i]) }

  lemma Parts(raw: jstring, i: nat, j: nat)
    requires i <= j <= |raw|
    requires AllNumberUnits(raw[..i]) && AllNumberUnits(raw[i..j]) && AllNumberUnits(raw[j..])
    ensures AllNumberUnits(raw)
  {
    hide IsNumberUnit;
    forall k | 0 <= k < |raw| ensures IsNumberUnit(raw[k]) {
      if k < i {
        assert raw[k] == raw[..i][k];
      } else if k < j {
        assert raw[k] == raw[i..j][k - i];
      } else {
        assert raw[k] == raw[j..][k - j];
      }
    }
  }

  lemma DigitUnits(s: jstring)
    ensures AllNumberUnits(s[..DigitRun(s)])
  {}

  lemma NumberUnits(raw: jstring)
    requires IsNumber(raw)
    ensures AllNumberUnits(raw)
  {
    var sign := if raw != [] && raw[0] == '-' as int then 1 else 0;
    var unsigned := raw[sign..];
    var n := DigitRun(unsigned);
    assert IsFraction(unsigned[n..]) && AllNumberUnits(raw[..sign]);
    hide *;
    FractionUnits(unsigned[n..]);
    DigitUnits(unsigned);
    assert raw[sign..sign + n] == unsigned[..n] && raw[sign + n..] == unsigned[n..];
    Parts(raw, sign, sign + n);
  }

  lemma FractionUnits(s: jstring)
    requires IsFraction(s)
    ensures AllNumberUnits(s)
  {
    if s != [] && s[0] == '.' as int {
      var n := DigitRun(s[1..]);
      ExponentUnits(s[1 + n..]);
      assert s == [s[0]] + s[1..][..n] + s[1 + n..];
    } else {
      ExponentUnits(s);
    }
  }

  lemma ExponentUnits(s: jstring)
    requires IsExponent(s)
    ensures AllNumberUnits(s)
  {
    if s != [] {
      var k := if |s| > 1 && (s[1] == '+' as int || s[1] == '-' as int) then 2 else 1;
      assert DigitRun(s[k..]) == |s[k..]|;
      assert s == s[..k] + s[k..];
    }
  }

  lemma TokenIsInert(raw: jstring)
    requires IsLiteral(raw) || IsNumber(raw)
    ensures AllInert(raw)
  {
    hide IsNumber;
    if IsNumber(raw) {
      NumberUnits(raw);
    } else if raw == Of("true") {
    } else if raw == Of("false") {
    }
  }

  lemma SkipNext(text: jstring)
    requires text != [] && text[0] != QUOTE
    ensures text[0] != BACKSLASH ==> Skip(text) == 1 + Skip(text[1..])
    ensures text[0] == BACKSLASH && |text| >= 2 ==> Skip(text) == 2 + Skip(text[2..])
  {}

  lemma SkipUnicode(raw: jstring, text: jstring)
    requires |raw| >= 6 && raw <= text && raw[0] == BACKSLASH && AllHex(raw[2..6])
    ensures Skip(text) == 6 + Skip(text[6..])
  {
    SkipNext(text);
    hide Skip;
    var digits := text[2..];
    forall i | 0 <= i < 4 ensures IsHexDigit(digits[i]) { assert digits[i] == raw[2..6][i]; }
    SkipHexDigits(digits);
    assert digits[1..][1..][1..][1..] == text[6..];
  }

  /** How long the text of the first unit is. */
  lemma FirstUnitOf(raw: jstring) returns (n: nat)
    requires raw != [] && Unescape(raw).Some?
    ensures raw[0] != QUOTE && 1 <= n <= |raw| && Unescape(raw[n..]).Some?
    ensures n == 1 ==> raw[0] != BACKSLASH
    ensures n == 2 ==> raw[0] == BACKSLASH
    ensures n != 1 && n != 2 ==> n == 6 && raw[0] == BACKSLASH && AllHex(raw[2..6])
  {
    n := if raw[0] != BACKSLASH then 1 else if ShortEscape(raw[1]).Some? then 2 else 6;
  }

  lemma SkipNothing(rest: jstring)
    ensures Skip([] + [QUOTE] + rest) == 0
  {}

  lemma TextBehind(raw: jstring, rest: jstring, n: nat)
    requires 0 < n <= |raw|
    ensures var text := raw + [QUOTE] + rest;
            text[n..] == raw[n..] + [QUOTE] + rest && raw <= text && text[0] == raw[0] && |text| > n
  {}

  lemma {:induction false} SkipBody(raw: jstring, rest: jstring)
    requires Unescape(raw).Some?
    ensures Skip(raw + [QUOTE] + rest) == |raw|
    decreases |raw|
  {
    hide *;
    if raw == [] {
      SkipNothing(rest);
    } else {
      var n := FirstUnitOf(raw);
      var text := raw + [QUOTE] + rest;
      SkipBody(raw[n..], rest);
      TextBehind(raw, rest, n);
      SkipNext(text);
      if n == 6 { SkipUnicode(raw, text); }
    }
  }

  lemma SkipHexDigits(text: jstring)
    requires |text| >= 4 && forall i :: 0 <= i < 4 ==> IsHexDigit(text[i])
    ensures Skip(text) == 4 + Skip(text[1..][1..][1..][1..])
  {
    assert Skip(text) == 1 + Skip(text[1..]);
    assert text[1..][0] == text[1];
    assert Skip(text[1..]) == 1 + Skip(text[1..][1..]);
    assert text[1..][1..][0] == text[2];
    assert text[1..][1..][1..][0] == text[3];
  }

  lemma ScanString(raw: jstring, rest: jstring, stack: seq<Frame>)
    requires Unescape(raw).Some?
    ensures var text := [QUOTE] + raw + [QUOTE] + rest;
            Scan(text, stack) ==
              if NameNext(stack) then
                var keys := stack[|stack| - 1].keys.value;
                if Unescape(raw).value in keys then Some(true)
                else Scan(rest, Pop(stack) + [Frame(Some(keys + {Unescape(raw).value}), true)])
              else Scan(rest, stack)
  {
    hide Unescape;
    var text := [QUOTE] + raw + [QUOTE] + rest;
    var tail := raw + [QUOTE] + rest;
    assert text[0] == QUOTE && text[1..] == tail;
    SkipBody(raw, rest);
    assert tail[..|raw|] == raw;
    assert Drop(tail, |raw| + 1) == rest;
  }

  // ---- one structural unit ----

  lemma ScanOne(c: unit, rest: jstring, stack: seq<Frame>)
    ensures c == LBRACE ==> Scan([c] + rest, stack) == Scan(rest, stack + [Frame(Some({}), true)])
    ensures c == LBRACKET ==> Scan([c] + rest, stack) == Scan(rest, stack + [Frame(None, false)])
    ensures c == RBRACE || c == RBRACKET ==> Scan([c] + rest, stack) == Scan(rest, Pop(stack))
    ensures c == COMMA && stack != [] && stack[|stack| - 1].keys.Some? ==>
              Scan([c] + rest, stack) == Scan(rest, SetExpectKey(stack, true))
    ensures c == COMMA && (stack == [] || stack[|stack| - 1].keys.None?) ==>
              Scan([c] + rest, stack) == Scan(rest, stack)
    ensures c == COLON && stack != [] ==> Scan([c] + rest, stack) == Scan(rest, SetExpectKey(stack, false))
  {
    assert ([c] + rest)[1..] == rest;
  }

  // ---- trees ----

  function Verdict(dup: bool, rest: jstring, stack: seq<Frame>): Option<bool> {
    if dup then Some(true) else Scan(rest, stack)
  }

  lemma {:induction false} ScanNode(n: Node, rest: jstring, stack: seq<Frame>)
    requires Grammatical(n) && !NameNext(stack)
    ensures Scan(Render(n) + rest, stack) == Verdict(Dup(n), rest, stack)
    decreases n, 1
  {
    hide Scan, Unescape, IsNumber, IsLiteral;
    match n
    case Token(raw) =>
      TokenIsInert(raw);
      ScanInert(raw, rest, stack);
    case Quoted(raw) =>
      ScanString(raw, rest, stack);
    case Elements(items, gap) =>
      var frame := Frame(None, false);
      var inside := stack + [frame];
      var tail := [RBRACKET] + rest;
      var body := if items == [] then gap else RenderItems(items);
      assert Render(n) + rest == [LBRACKET] + (body + tail);
      ScanOne(LBRACKET, body + tail, stack);
      if items == [] {
        BlankIsInert(gap);
        ScanInert(gap, tail, inside);
      } else {
        ScanItems(items, tail, inside);
      }
      ScanOne(RBRACKET, rest, inside);
      assert Pop(inside) == stack;
    case Members(fields, gap) =>
      var inside := stack + [Frame(Some({}), true)];
      var tail := [RBRACE] + rest;
      var body := if fields == [] then gap else RenderFields(fields);
      assert Render(n) + rest == [LBRACE] + (body + tail);
      ScanOne(LBRACE, body + tail, stack);
      if fields == [] {
        BlankIsInert(gap);
        ScanInert(gap, tail, inside);
        ScanOne(RBRACE, rest, inside);
        assert Pop(inside) == stack;
      } else {
        ScanFields(fields, tail, stack, {});
        var last := Frame(Some(Names(fields)), false);
        ScanOne(RBRACE, rest, stack + [last]);
        assert {} + Names(fields) == Names(fields);
        assert Pop(stack + [last]) == stack;
      }
  }

  lemma {:induction false} ScanSpaced(s: Spaced, rest: jstring, stack: seq<Frame>)
    requires GrammaticalSpaced(s) && !NameNext(stack)
    ensures Scan(RenderSpaced(s) + rest, stack) == Verdict(Dup(s.node), rest, stack)
    decreases s, 0
  {
    hide Scan;
    BlankIsInert(s.before);
    BlankIsInert(s.after);
    var inner := Render(s.node) + (s.after + rest);
    assert RenderSpaced(s) + rest == s.before + inner;
    ScanInert(s.before, inner, stack);
    ScanNode(s.node, s.after + rest, stack);
    ScanInert(s.after, rest, stack);
  }

  lemma {:induction false} ScanItems(items: seq<Spaced>, rest: jstring, stack: seq<Frame>)
    requires items != [] && GrammaticalItems(items)
    requires stack != [] && stack[|stack| - 1].keys.None?
    ensures Scan(RenderItems(items) + rest, stack) == Verdict(DupItems(items), rest, stack)
    decreases items, 0
  {
    hide Scan;
    if |items| == 1 {
      assert RenderItems(items) == RenderSpaced(items[0]);
      assert !DupItems(items[1..]);
      ScanSpaced(items[0], rest, stack);
    } else {
      var tail := RenderItems(items[1..]) + rest;
      assert RenderItems(items) + rest == RenderSpaced(items[0]) + ([COMMA] + tail);
      ScanSpaced(items[0], [COMMA] + tail, stack);
      ScanOne(COMMA, tail, stack);
      ScanItems(items[1..], rest, stack);
    }
  }

  function Names(fields: seq<Field>): set<jstring> {
    if fields == [] then {} else {NameOf(fields[0])} + Names(fields[1..])
  }

  lemma {:induction false} ScanField(f: Field, rest: jstring, outer: seq<Frame>, names: set<jstring>)
    requires AllBlank(f.before) && AllBlank(f.after) && Unescape(f.name).Some? && GrammaticalSpaced(f.value)
    ensures Scan(RenderField(f) + rest, outer + [Frame(Some(names), true)])
         == Verdict(NameOf(f) in names || Dup(f.value.node), rest, outer + [Frame(Some(names + {NameOf(f)}), false)])
    decreases f, 0
  {
    hide Scan, Unescape;
    var stack := outer + [Frame(Some(names), true)];
    var known := outer + [Frame(Some(names + {NameOf(f)}), true)];
    var valued := outer + [Frame(Some(names + {NameOf(f)}), false)];
    var value := RenderSpaced(f.value) + rest;
    var colon := f.after + ([COLON] + value);
    var quoted := [QUOTE] + f.name + [QUOTE] + colon;
    assert RenderField(f) + rest == f.before + quoted;
    BlankIsInert(f.before);
    BlankIsInert(f.after);
    ScanInert(f.before, quoted, stack);
    ScanString(f.name, colon, stack);
    assert Pop(stack) == outer;
    ScanInert(f.after, [COLON] + value, known);
    ScanOne(COLON, value, known);
    assert SetExpectKey(known, false) == valued;
    ScanSpaced(f.value, rest, valued);
  }

  lemma {:induction false} ScanFields(fields: seq<Field>, rest: jstring, outer: seq<Frame>, names: set<jstring>)
    requires fields != [] && GrammaticalFields(fields)
    ensures Scan(RenderFields(fields) + rest, outer + [Frame(Some(names), true)])
         == Verdict(DupFields(fields, names), rest, outer + [Frame(Some(names + Names(fields)), false)])
    decreases fields, 0
  {
    hide Scan, Unescape, NameOf;
    var f := fields[0];
    var seen := names + {NameOf(f)};
    var valued := outer + [Frame(Some(seen), false)];
    assert seen + Names(fields[1..]) == names + Names(fields);
    if |fields| == 1 {
      assert RenderFields(fields) == RenderField(f);
      assert fields[1..] == [] && !DupFields(fields[1..], seen);
      assert names + Names(fields) == seen;
      ScanField(f, rest, outer, names);
    } else {
      var tail := RenderFields(fields[1..]) + rest;
      assert RenderFields(fields) + rest == RenderField(f) + ([COMMA] + tail);
      ScanField(f, [COMMA] + tail, outer, names);
      ScanOne(COMMA, tail, valued);
      assert SetExpectKey(valued, true) == outer + [Frame(Some(seen), true)];
      ScanFields(fields[1..], rest, outer, seen);
    }
  }

  /** On every JSON text the scan answers whether some object repeats a decoded name. */
  lemma ScanDecides(document: Spaced)
    requires GrammaticalSpaced(document)
    ensures Scan(RenderSpaced(document), []) == Some(HasRepeatedName(document.node))
  {
    ScanSpaced(document, [], []);
    assert RenderSpaced(document) + [] == RenderSpaced(document);
    DupIffRepeatedName(document.node);
  }
}

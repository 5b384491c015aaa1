/** The grammar is unambiguous: a text is the rendering of at most one tree. */
module Unambiguous {
  import opened Text
  import opened Json
  import opened DuplicateKeys
  import opened ScanRendering

  /** A unit that ends a value: what can follow it, whitespace apart. */
  predicate IsCloser(c: unit) { c == COMMA || c == RBRACKET || c == RBRACE }

  predicate Closed(rest: jstring) { rest == [] || IsCloser(rest[0]) }

  predicate Stopped(rest: jstring) { rest == [] || IsBlank(rest[0]) || IsCloser(rest[0]) }

  predicate IsTokenUnit(c: unit) { IsNumberUnit(c) || 'a' as int <= c <= 'z' as int }

  lemma TokenUnits(raw: jstring)
    requires IsLiteral(raw) || IsNumber(raw)
    ensures raw != [] && forall i :: 0 <= i < |raw| ==> IsTokenUnit(raw[i])
  {
    if IsNumber(raw) { NumberUnits(raw); }
  }

  /** Two splits of one text at the first unit outside a class are the same split. */
  lemma {:induction false} SameSplit(s: jstring, r: jstring, s': jstring, r': jstring, inside: unit -> bool)
    requires s + r == s' + r'
    requires forall i :: 0 <= i < |s| ==> inside(s[i])
    requires forall i :: 0 <= i < |s'| ==> inside(s'[i])
    requires (r == [] || !inside(r[0])) && (r' == [] || !inside(r'[0]))
    ensures s == s' && r == r'
    decreases |s|
  {
    if s + r != [] {
      var c, rest := (s + r)[0], (s + r)[1..];
      assert c == (s' + r')[0] && rest == (s' + r')[1..];
      if inside(c) {
        assert s != [] && s' != [];
        assert rest == s[1..] + r && rest == s'[1..] + r';
        SameSplit(s[1..], r, s'[1..], r', inside);
        assert s == [c] + s[1..] && s' == [c] + s'[1..];
      } else {
        assert s == [] && s' == [];
        assert s + r == r && s' + r' == r';
      }
    }
  }

  lemma BlankSplit(s: jstring, r: jstring, s': jstring, r': jstring)
    requires s + r == s' + r' && AllBlank(s) && AllBlank(s')
    requires (r == [] || !IsBlank(r[0])) && (r' == [] || !IsBlank(r'[0]))
    ensures s == s' && r == r'
  {
    SameSplit(s, r, s', r', (c: unit) => IsBlank(c));
  }

  lemma AfterBlank(s: jstring, r: jstring)
    requires AllBlank(s) && Closed(r)
    ensures Stopped(s + r) && (r == [] || !IsBlank(r[0]))
  {}

  lemma StripPrefix(p: jstring, s: jstring, s': jstring)
    requires p + s == p + s'
    ensures s == s'
  {
    assert s == (p + s)[|p|..] && s' == (p + s')[|p|..];
  }

  /** How a rendered value starts, which tells its kind and that it is no blank. */
  lemma FirstUnit(n: Node, rest: jstring)
    requires Grammatical(n)
    ensures var text := Render(n) + rest;
            && text != [] && !IsBlank(text[0])
            && (n.Token? <==> IsTokenUnit(text[0])) && (n.Quoted? <==> text[0] == QUOTE)
            && (n.Elements? <==> text[0] == LBRACKET) && (n.Members? <==> text[0] == LBRACE)
            && !IsCloser(text[0])
  {
    if n.Token? { TokenUnits(n.raw); }
  }

  lemma {:induction false} UniqueNode(n: Node, r: jstring, n': Node, r': jstring)
    requires Grammatical(n) && Grammatical(n') && Stopped(r) && Stopped(r')
    requires Render(n) + r == Render(n') + r'
    ensures n == n' && r == r'
    decreases n, 1
  {
    hide Unescape, IsNumber, IsLiteral;
    FirstUnit(n, r);
    FirstUnit(n', r');
    match n
    case Token(raw) =>
      TokenUnits(raw);
      TokenUnits(n'.raw);
      SameSplit(raw, r, n'.raw, r', (c: unit) => IsTokenUnit(c));
    case Quoted(raw) =>
      UniqueString(raw, r, n'.raw, r');
    case Elements(items, gap) =>
      UniqueElements(items, gap, r, n'.items, n'.gap, r');
    case Members(fields, gap) =>
      UniqueMembers(fields, gap, r, n'.fields, n'.gap, r');
  }

  function ElementsBody(items: seq<Spaced>, gap: jstring): jstring { if items == [] then gap else RenderItems(items) }

  function MembersBody(fields: seq<Field>, gap: jstring): jstring { if fields == [] then gap else RenderFields(fields) }

  lemma {:induction false} UniqueElements(
    items: seq<Spaced>, gap: jstring, r: jstring, items': seq<Spaced>, gap': jstring, r': jstring)
    requires AllBlank(gap) && (items != [] ==> gap == []) && GrammaticalItems(items)
    requires AllBlank(gap') && (items' != [] ==> gap' == []) && GrammaticalItems(items')
    requires [LBRACKET] + ElementsBody(items, gap) + [RBRACKET] + r == [LBRACKET] + ElementsBody(items', gap') + [RBRACKET] + r'
    ensures items == items' && gap == gap' && r == r'
    decreases items, 1
  {
    hide GrammaticalSpaced, RenderSpaced;
    var tail, tail' := [RBRACKET] + r, [RBRACKET] + r';
    Framed(LBRACKET, ElementsBody(items, gap), tail, ElementsBody(items', gap'), tail') by {
      assert [LBRACKET] + ElementsBody(items, gap) + [RBRACKET] + r == [LBRACKET] + (ElementsBody(items, gap) + tail);
      assert [LBRACKET] + ElementsBody(items', gap') + [RBRACKET] + r' == [LBRACKET] + (ElementsBody(items', gap') + tail');
    }
    if items != [] && items' != [] {
      UniqueItems(items, tail, items', tail');
    } else if items != [] {
      ItemsSplit(items, tail);
      NotOnlyBlank(items[0], ItemsTail(items, tail), gap', tail');
    } else if items' != [] {
      ItemsSplit(items', tail');
      NotOnlyBlank(items'[0], ItemsTail(items', tail'), gap, tail);
    } else {
      BlankSplit(gap, tail, gap', tail');
    }
    StripPrefix([RBRACKET], r, r');
  }

  lemma {:induction false} UniqueMembers(
    fields: seq<Field>, gap: jstring, r: jstring, fields': seq<Field>, gap': jstring, r': jstring)
    requires AllBlank(gap) && (fields != [] ==> gap == []) && GrammaticalFields(fields)
    requires AllBlank(gap') && (fields' != [] ==> gap' == []) && GrammaticalFields(fields')
    requires [LBRACE] + MembersBody(fields, gap) + [RBRACE] + r == [LBRACE] + MembersBody(fields', gap') + [RBRACE] + r'
    ensures fields == fields' && gap == gap' && r == r'
    decreases fields, 1
  {
    hide GrammaticalFields, RenderFields;
    var tail, tail' := [RBRACE] + r, [RBRACE] + r';
    Framed(LBRACE, MembersBody(fields, gap), tail, MembersBody(fields', gap'), tail') by {
      assert [LBRACE] + MembersBody(fields, gap) + [RBRACE] + r == [LBRACE] + (MembersBody(fields, gap) + tail);
      assert [LBRACE] + MembersBody(fields', gap') + [RBRACE] + r' == [LBRACE] + (MembersBody(fields', gap') + tail');
    }
    if fields != [] && fields' != [] {
      UniqueFields(fields, tail, fields', tail');
    } else if fields != [] {
      FieldIsNotBlank(fields, tail, gap', tail');
    } else if fields' != [] {
      FieldIsNotBlank(fields', tail', gap, tail);
    } else {
      BlankSplit(gap, tail, gap', tail');
    }
    StripPrefix([RBRACE], r, r');
  }

  lemma Framed(open: unit, s: jstring, t: jstring, s': jstring, t': jstring)
    requires [open] + (s + t) == [open] + (s' + t')
    ensures s + t == s' + t'
  {
    StripPrefix([open], s + t, s' + t');
  }

  lemma UniqueString(raw: jstring, r: jstring, raw': jstring, r': jstring)
    requires Unescape(raw).Some? && Unescape(raw').Some?
    requires [QUOTE] + raw + [QUOTE] + r == [QUOTE] + raw' + [QUOTE] + r'
    ensures raw == raw' && r == r'
  {
    hide Unescape, Skip;
    var text, text' := raw + [QUOTE] + r, raw' + [QUOTE] + r';
    assert [QUOTE] + raw + [QUOTE] + r == [QUOTE] + text;
    assert [QUOTE] + raw' + [QUOTE] + r' == [QUOTE] + text';
    StripPrefix([QUOTE], text, text');
    SkipBody(raw, r);
    SkipBody(raw', r');
    assert raw == text[..|raw|] && raw' == text[..|raw|];
    assert r == text[|raw| + 1..] && r' == text[|raw| + 1..];
  }

  function ItemsTail(items: seq<Spaced>, rest: jstring): jstring
    requires items != []
  {
    if |items| == 1 then rest else [COMMA] + (RenderItems(items[1..]) + rest)
  }

  lemma SpacedParts(s: Spaced, r: jstring)
    requires GrammaticalSpaced(s)
    ensures RenderSpaced(s) + r == s.before + (Render(s.node) + (s.after + r))
    ensures AllBlank(s.before) && AllBlank(s.after) && Grammatical(s.node)
  {
    hide Render;
  }

  lemma {:induction false} UniqueSpaced(s: Spaced, r: jstring, s': Spaced, r': jstring)
    requires GrammaticalSpaced(s) && GrammaticalSpaced(s') && Closed(r) && Closed(r')
    requires RenderSpaced(s) + r == RenderSpaced(s') + r'
    ensures s == s' && r == r'
    decreases s, 0
  {
    hide *;
    SpacedParts(s, r);
    SpacedParts(s', r');
    AfterBlank(s.after, r);
    AfterBlank(s'.after, r');
    FirstUnit(s.node, s.after + r);
    FirstUnit(s'.node, s'.after + r');
    BlankSplit(s.before, Render(s.node) + (s.after + r), s'.before, Render(s'.node) + (s'.after + r'));
    UniqueNode(s.node, s.after + r, s'.node, s'.after + r');
    BlankSplit(s.after, r, s'.after, r');
  }

  /** A value is not only whitespace. */
  lemma NotOnlyBlank(s: Spaced, r: jstring, gap: jstring, r': jstring)
    requires GrammaticalSpaced(s) && AllBlank(gap) && r' != [] && IsCloser(r'[0])
    ensures RenderSpaced(s) + r != gap + r'
  {
    if RenderSpaced(s) + r == gap + r' {
      var t := Render(s.node) + (s.after + r);
      assert RenderSpaced(s) + r == s.before + t;
      FirstUnit(s.node, s.after + r);
      BlankSplit(s.before, t, gap, r');
    }
  }

  lemma ItemsTailCases(items: seq<Spaced>, r: jstring, items': seq<Spaced>, r': jstring)
    requires items != [] && items' != [] && r != [] && r' != [] && r[0] == RBRACKET == r'[0]
    requires ItemsTail(items, r) == ItemsTail(items', r')
    ensures |items| > 1 <==> |items'| > 1
    ensures |items| > 1 ==> RenderItems(items[1..]) + r == RenderItems(items'[1..]) + r'
    ensures |items| == 1 ==> r == r'
  {
    hide RenderItems;
    var tail := ItemsTail(items, r);
    assert |items| > 1 <==> tail[0] == COMMA;
    assert |items'| > 1 <==> tail[0] == COMMA;
    if |items| > 1 {
      StripPrefix([COMMA], RenderItems(items[1..]) + r, RenderItems(items'[1..]) + r');
    }
  }

  lemma ItemsHead(items: seq<Spaced>)
    requires items != [] && GrammaticalItems(items)
    ensures GrammaticalSpaced(items[0])
  {}

  lemma ItemsSplit(items: seq<Spaced>, r: jstring)
    requires items != []
    ensures RenderItems(items) + r == RenderSpaced(items[0]) + ItemsTail(items, r)
    ensures ItemsTail(items, r) == if |items| == 1 then r else [COMMA] + (RenderItems(items[1..]) + r)
    ensures GrammaticalItems(items) ==> GrammaticalItems(items[1..])
  {
    hide RenderSpaced;
  }

  lemma {:induction false} UniqueItems(items: seq<Spaced>, r: jstring, items': seq<Spaced>, r': jstring)
    requires items != [] && items' != [] && GrammaticalItems(items) && GrammaticalItems(items')
    requires r != [] && r' != [] && r[0] == RBRACKET == r'[0]
    requires RenderItems(items) + r == RenderItems(items') + r'
    ensures items == items' && r == r'
    decreases items, 0
  {
    hide *;
    ItemsSplit(items, r);
    ItemsSplit(items', r');
    ItemsHead(items);
    ItemsHead(items');
    var tail, tail' := ItemsTail(items, r), ItemsTail(items', r');
    Closers(tail);
    Closers(tail');
    UniqueSpaced(items[0], tail, items'[0], tail');
    ItemsTailCases(items, r, items', r');
    if |items| > 1 {
      UniqueItems(items[1..], r, items'[1..], r');
      assert items == [items[0]] + items[1..] && items' == [items'[0]] + items'[1..];
    } else {
      assert items == [items[0]] && items' == [items'[0]];
    }
  }

  lemma Closers(tail: jstring)
    requires tail != [] && (tail[0] == COMMA || tail[0] == RBRACKET || tail[0] == RBRACE)
    ensures Closed(tail)
  {}

  function FieldsTail(fields: seq<Field>, rest: jstring): jstring
    requires fields != []
  {
    if |fields| == 1 then rest else [COMMA] + (RenderFields(fields[1..]) + rest)
  }

  lemma FieldsTailCases(fields: seq<Field>, r: jstring, fields': seq<Field>, r': jstring)
    requires fields != [] && fields' != [] && r != [] && r' != [] && r[0] == RBRACE == r'[0]
    requires FieldsTail(fields, r) == FieldsTail(fields', r')
    ensures |fields| > 1 <==> |fields'| > 1
    ensures |fields| > 1 ==> RenderFields(fields[1..]) + r == RenderFields(fields'[1..]) + r'
    ensures |fields| == 1 ==> r == r'
  {
    hide RenderFields;
    var tail := FieldsTail(fields, r);
    assert |fields| > 1 <==> tail[0] == COMMA;
    assert |fields'| > 1 <==> tail[0] == COMMA;
    if |fields| > 1 {
      StripPrefix([COMMA], RenderFields(fields[1..]) + r, RenderFields(fields'[1..]) + r');
    }
  }

  lemma FieldsHead(fields: seq<Field>)
    requires fields != [] && GrammaticalFields(fields)
    ensures AllBlank(fields[0].before) && AllBlank(fields[0].after)
    ensures Unescape(fields[0].name).Some? && GrammaticalSpaced(fields[0].value)
  {}

  lemma FieldsSplit(fields: seq<Field>, r: jstring)
    requires fields != []
    ensures RenderFields(fields) + r == RenderField(fields[0]) + FieldsTail(fields, r)
    ensures FieldsTail(fields, r) == if |fields| == 1 then r else [COMMA] + (RenderFields(fields[1..]) + r)
    ensures GrammaticalFields(fields) ==> GrammaticalFields(fields[1..])
  {
    hide RenderField;
  }

  lemma FieldStart(f: Field, r: jstring)
    ensures var t := [QUOTE] + (f.name + [QUOTE] + f.after + [COLON] + RenderSpaced(f.value) + r);
            RenderField(f) + r == f.before + t
  {
    hide RenderSpaced;
  }

  lemma FieldIsNotBlank(fields: seq<Field>, r: jstring, gap: jstring, r': jstring)
    requires fields != [] && GrammaticalFields(fields) && AllBlank(gap) && r' != [] && IsCloser(r'[0])
    ensures RenderFields(fields) + r != gap + r'
  {
    hide RenderFields, RenderField, RenderSpaced, GrammaticalSpaced, FieldsTail, Unescape;
    if RenderFields(fields) + r == gap + r' {
      var f, tail := fields[0], FieldsTail(fields, r);
      FieldsSplit(fields, r);
      FieldStart(f, tail);
      var t := [QUOTE] + (f.name + [QUOTE] + f.after + [COLON] + RenderSpaced(f.value) + tail);
      BlankSplit(f.before, t, gap, r');
    }
  }

  lemma {:induction false} UniqueField(f: Field, r: jstring, f': Field, r': jstring)
    requires AllBlank(f.before) && AllBlank(f.after) && Unescape(f.name).Some? && GrammaticalSpaced(f.value)
    requires AllBlank(f'.before) && AllBlank(f'.after) && Unescape(f'.name).Some? && GrammaticalSpaced(f'.value)
    requires Closed(r) && Closed(r')
    requires RenderField(f) + r == RenderField(f') + r'
    ensures f == f' && r == r'
    decreases f, 0
  {
    hide *;
    var value, value' := RenderSpaced(f.value) + r, RenderSpaced(f'.value) + r';
    var colon, colon' := f.after + ([COLON] + value), f'.after + ([COLON] + value');
    FieldParts(f, r);
    FieldParts(f', r');
    NotBlank([QUOTE] + f.name + [QUOTE] + colon, [COLON] + value);
    NotBlank([QUOTE] + f'.name + [QUOTE] + colon', [COLON] + value');
    BlankSplit(f.before, [QUOTE] + f.name + [QUOTE] + colon, f'.before, [QUOTE] + f'.name + [QUOTE] + colon');
    UniqueString(f.name, colon, f'.name, colon');
    BlankSplit(f.after, [COLON] + value, f'.after, [COLON] + value');
    StripPrefix([COLON], value, value');
    UniqueSpaced(f.value, r, f'.value, r');
  }

  lemma FieldParts(f: Field, r: jstring)
    ensures RenderField(f) + r
         == f.before + ([QUOTE] + f.name + [QUOTE] + (f.after + ([COLON] + (RenderSpaced(f.value) + r))))
  {
    hide RenderSpaced;
  }

  lemma NotBlank(quoted: jstring, colon: jstring)
    requires quoted != [] && quoted[0] == QUOTE && colon != [] && colon[0] == COLON
    ensures !IsBlank(quoted[0]) && !IsBlank(colon[0])
  {}

  lemma {:induction false} UniqueFields(fields: seq<Field>, r: jstring, fields': seq<Field>, r': jstring)
    requires fields != [] && fields' != [] && GrammaticalFields(fields) && GrammaticalFields(fields')
    requires r != [] && r' != [] && r[0] == RBRACE == r'[0]
    requires RenderFields(fields) + r == RenderFields(fields') + r'
    ensures fields == fields' && r == r'
    decreases fields, 0
  {
    hide *;
    FieldsSplit(fields, r);
    FieldsSplit(fields', r');
    FieldsHead(fields);
    FieldsHead(fields');
    var tail, tail' := FieldsTail(fields, r), FieldsTail(fields', r');
    Closers(tail);
    Closers(tail');
    UniqueField(fields[0], tail, fields'[0], tail');
    FieldsTailCases(fields, r, fields', r');
    if |fields| > 1 {
      UniqueFields(fields[1..], r, fields'[1..], r');
      assert fields == [fields[0]] + fields[1..] && fields' == [fields'[0]] + fields'[1..];
    } else {
      assert fields == [fields[0]] && fields' == [fields'[0]];
    }
  }

  /** One text, one tree. */
  lemma OneTree(d: Spaced, d': Spaced)
    requires GrammaticalSpaced(d) && GrammaticalSpaced(d') && RenderSpaced(d) == RenderSpaced(d')
    ensures d == d'
  {
    assert RenderSpaced(d) + [] == RenderSpaced(d) && RenderSpaced(d') + [] == RenderSpaced(d');
    UniqueSpaced(d, [], d', []);
  }
}

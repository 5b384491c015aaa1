/**
 * `hasDuplicateJsonKeys` of src/crypto/shareGuard.ts (lines 57-83): a one-pass
 * scan with a stack, proved to decide whether the syntax tree repeats a name.
 */
module DuplicateKeys {
  import opened Wrappers
  import opened Text
  import opened Json

  // ---- what it should decide ----

  ghost predicate Child(n: Node, parent: Node) {
    match parent
    case Elements(items, _) => exists i :: 0 <= i < |items| && items[i].node == n
    case Members(fields, _) => exists i :: 0 <= i < |fields| && fields[i].value.node == n
    case _ => false
  }

  /** A chain of nodes from `root` down to `n`. */
  ghost predicate Descends(path: seq<Node>, root: Node, n: Node)
    decreases |path|
  {
    && path != [] && path[0] == root
    && if |path| == 1 then n == root else Child(path[1], root) && Descends(path[1..], path[1], n)
  }

  ghost predicate RepeatsName(n: Node) {
    n.Members? && exists i, j :: 0 <= i < j < |n.fields| && NameOf(n.fields[i]) == NameOf(n.fields[j])
  }

  /** Some object anywhere in the tree has two members with the same decoded name. */
  ghost predicate HasRepeatedName(root: Node) {
    exists path, n :: Descends(path, root, n) && RepeatsName(n)
  }

  // ---- the same, by recursion on the tree ----

  predicate Dup(n: Node)
    decreases n, 1
  {
    match n
    case Elements(items, _) => DupItems(items)
    case Members(fields, _) => DupFields(fields, {})
    case _ => false
  }

  predicate DupItems(items: seq<Spaced>)
    decreases items, 0
  {
    items != [] && (Dup(items[0].node) || DupItems(items[1..]))
  }

  /** Some name is in `names` or occurs twice, or some value has a duplicate. */
  predicate DupFields(fields: seq<Field>, names: set<jstring>)
    decreases fields, 0
  {
    fields != []
    && (NameOf(fields[0]) in names || Dup(fields[0].value.node) || DupFields(fields[1..], names + {NameOf(fields[0])}))
  }

  lemma {:induction false} DupItemsIff(items: seq<Spaced>)
    ensures DupItems(items) <==> exists i :: 0 <= i < |items| && Dup(items[i].node)
  {
    if items != [] {
      DupItemsIff(items[1..]);
      if i :| 0 <= i < |items| && Dup(items[i].node) {
        if i > 0 { assert items[1..][i - 1] == items[i]; }
      }
    }
  }

  ghost predicate NameAmong(fields: seq<Field>, names: set<jstring>) {
    exists i :: 0 <= i < |fields| && NameOf(fields[i]) in names
  }

  ghost predicate NameTwice(fields: seq<Field>) {
    exists i, j :: 0 <= i < j < |fields| && NameOf(fields[i]) == NameOf(fields[j])
  }

  ghost predicate ValueDup(fields: seq<Field>) {
    exists i :: 0 <= i < |fields| && Dup(fields[i].value.node)
  }

  lemma FieldsUnfold(fields: seq<Field>, names: set<jstring>)
    requires fields != []
    ensures var rest, name := fields[1..], NameOf(fields[0]);
            && (NameAmong(fields, names) <==> name in names || NameAmong(rest, names))
            && (NameTwice(fields) <==> NameAmong(rest, {name}) || NameTwice(rest))
            && (ValueDup(fields) <==> Dup(fields[0].value.node) || ValueDup(rest))
            && (NameAmong(rest, names + {name}) <==> NameAmong(rest, names) || NameAmong(rest, {name}))
  {
    hide NameOf, Dup;
    var rest := fields[1..];
    assert forall i :: 0 <= i < |rest| ==> rest[i] == fields[i + 1];
    assert forall i :: 0 < i < |fields| ==> fields[i] == rest[i - 1];
  }

  lemma {:induction false} DupFieldsIff(fields: seq<Field>, names: set<jstring>)
    ensures DupFields(fields, names) <==> NameAmong(fields, names) || NameTwice(fields) || ValueDup(fields)
  {
    if fields != [] {
      DupFieldsIff(fields[1..], names + {NameOf(fields[0])});
      FieldsUnfold(fields, names);
      hide NameOf, NameAmong, NameTwice, ValueDup, Dup;
    }
  }

  lemma DupUnfolds(n: Node)
    ensures Dup(n) <==> RepeatsName(n) || exists c :: Child(c, n) && Dup(c)
  {
    match n
    case Elements(items, _) =>
      DupItemsIff(items);
      if i :| 0 <= i < |items| && Dup(items[i].node) { assert Child(items[i].node, n); }
    case Members(fields, _) =>
      DupFieldsIff(fields, {});
      if i :| 0 <= i < |fields| && Dup(fields[i].value.node) { assert Child(fields[i].value.node, n); }
    case _ =>
  }

  lemma ChildIsSmaller(c: Node, n: Node)
    requires Child(c, n)
    ensures c < n
  {
    match n
    case Elements(items, _) =>
      var i :| 0 <= i < |items| && items[i].node == c;
      assert items[i] in items;
    case Members(fields, _) =>
      var i :| 0 <= i < |fields| && fields[i].value.node == c;
      assert fields[i] in fields;
  }

  lemma RepeatedHere(root: Node)
    requires RepeatsName(root)
    ensures HasRepeatedName(root)
  {
    assert Descends([root], root, root);
  }

  lemma RepeatedBelow(root: Node, c: Node)
    requires Child(c, root) && HasRepeatedName(c)
    ensures HasRepeatedName(root)
  {
    hide RepeatsName, Child;
    var path, n :| Descends(path, c, n) && RepeatsName(n);
    assert ([root] + path)[1..] == path;
    assert Descends([root] + path, root, n);
  }

  lemma RepeatedWhere(root: Node) returns (c: Node)
    requires HasRepeatedName(root)
    ensures RepeatsName(root) || (Child(c, root) && HasRepeatedName(c))
  {
    hide RepeatsName, Child;
    var path, n :| Descends(path, root, n) && RepeatsName(n);
    c := root;
    if |path| > 1 {
      c := path[1];
      assert Descends(path[1..], path[1], n);
    }
  }

  /** The recursion decides exactly whether some object repeats a name. */
  lemma {:induction false} DupIffRepeatedName(root: Node)
    ensures Dup(root) <==> HasRepeatedName(root)
    decreases root
  {
    hide Dup, RepeatsName, HasRepeatedName, Child;
    DupUnfolds(root);
    if RepeatsName(root) {
      RepeatedHere(root);
    } else if Dup(root) {
      var c :| Child(c, root) && Dup(c);
      ChildIsSmaller(c, root);
      DupIffRepeatedName(c);
      RepeatedBelow(root, c);
    } else if HasRepeatedName(root) {
      var c := RepeatedWhere(root);
      ChildIsSmaller(c, root);
      DupIffRepeatedName(c);
      assert false;
    }
  }

  // ---- the scan ----

  /** A container being read: the names so far if it is an object, and whether a name comes next. */
  datatype Frame = Frame(keys: Option<set<jstring>>, expectKey: bool)

  function Pop(stack: seq<Frame>): seq<Frame> {
    if stack == [] then [] else stack[..|stack| - 1]
  }

  function SetExpectKey(stack: seq<Frame>, next: bool): seq<Frame>
    requires stack != []
  {
    stack[|stack| - 1 := Frame(stack[|stack| - 1].keys, next)]
  }

  predicate NameNext(stack: seq<Frame>) {
    stack != [] && stack[|stack| - 1].keys.Some? && stack[|stack| - 1].expectKey
  }

  /** How far the inner loop runs from the first unit after a quote. */
  function Skip(text: jstring): (n: nat)
    decreases |text|
  {
    if text == [] || text[0] == QUOTE then 0
    else if text[0] == BACKSLASH then 2 + (if |text| < 2 then 0 else Skip(text[2..]))
    else 1 + Skip(text[1..])
  }

  /** `JSON.parse` of the slice from a quote at 0 to the unit `n` further on, as a string. */
  function KeyAfter(text: jstring, n: nat): Option<jstring> {
    if n < |text| then Unescape(text[..n]) else None
  }

  function Drop(text: jstring, n: nat): jstring { if n <= |text| then text[n..] else [] }

  /** The answer for the rest of the text; none when decoding a name throws. */
  function Scan(text: jstring, stack: seq<Frame>): Option<bool>
    decreases |text|
  {
    if text == [] then Some(false)
    else
      var c, rest := text[0], text[1..];
      if c == LBRACE then Scan(rest, stack + [Frame(Some({}), true)])
      else if c == LBRACKET then Scan(rest, stack + [Frame(None, false)])
      else if c == RBRACE || c == RBRACKET then Scan(rest, Pop(stack))
      else if c == COMMA then
        Scan(rest, if stack != [] && stack[|stack| - 1].keys.Some? then SetExpectKey(stack, true) else stack)
      else if c == COLON then Scan(rest, if stack != [] then SetExpectKey(stack, false) else stack)
      else if c == QUOTE then
        var n := Skip(rest);
        if NameNext(stack) then
          var key, keys := KeyAfter(rest, n), stack[|stack| - 1].keys.value;
          if key.None? then None
          else if key.value in keys then Some(true)
          else Scan(Drop(rest, n + 1), Pop(stack) + [Frame(Some(keys + {key.value}), true)])
        else Scan(Drop(rest, n + 1), stack)
      else Scan(rest, stack)
  }

  lemma DropNext(text: jstring, i: nat)
    requires i < |text|
    ensures Drop(text, i) != [] && Drop(text, i)[0] == text[i] && Drop(text, i)[1..] == Drop(text, i + 1)
    ensures i + 1 < |text| ==> Drop(text, i)[2..] == Drop(text, i + 2)
  {}

  /** The inner loop, lines 71-72: past the string that starts before `start`. */
  method SkipString(text: jstring, start: nat) returns (j: nat)
    requires start <= |text|
    ensures j == start + Skip(Drop(text, start))
  {
    j := start;
    while j < |text| && text[j] != QUOTE
      invariant start + Skip(Drop(text, start)) == j + Skip(Drop(text, j))
      decreases |text| - j
    {
      DropNext(text, j);
      j := j + (if text[j] == BACKSLASH then 2 else 1);
    }
    if j < |text| { DropNext(text, j); }
  }

  lemma AfterString(text: jstring, i: nat, j: nat)
    requires i < |text| && j == i + 1 + Skip(Drop(text, i + 1))
    ensures Drop(text, j + 1) == Drop(Drop(text, i + 1), Skip(Drop(text, i + 1)) + 1)
    ensures KeyAfter(Drop(text, i + 1), Skip(Drop(text, i + 1)))
         == if j < |text| then Unescape(text[i + 1..j]) else None
  {
    hide Skip, Unescape;
    var rest, n := text[i + 1..], Skip(Drop(text, i + 1));
    assert Drop(text, i + 1) == rest;
    if j < |text| {
      assert text[i + 1..j] == rest[..n];
      assert text[j + 1..] == rest[n + 1..];
    }
  }

  /** lines 57-83; `None` is an exception from decoding a name */
  method HasDuplicateJsonKeys(text: jstring) returns (r: Option<bool>)
    ensures r == Scan(text, [])
  {
    hide Drop, Skip, Unescape, KeyAfter;
    var stack: seq<Frame> := [];
    var i := 0;
    DropAll(text, 0);
    while i < |text|
      invariant Scan(text, []) == Scan(Drop(text, i), stack)
      decreases |text| - i
    {
      DropNext(text, i);
      var c := text[i];
      if c == LBRACE {
        stack := stack + [Frame(Some({}), true)];
      } else if c == LBRACKET {
        stack := stack + [Frame(None, false)];
      } else if c == RBRACE || c == RBRACKET {
        stack := Pop(stack);
      } else if c == COMMA {
        if stack != [] && stack[|stack| - 1].keys.Some? {
          stack := SetExpectKey(stack, true);
        }
      } else if c == COLON {
        if stack != [] {
          stack := SetExpectKey(stack, false);
        }
      } else if c == QUOTE {
        var j := SkipString(text, i + 1);
        AfterString(text, i, j);
        if NameNext(stack) {
          var key := if j < |text| then Unescape(text[i + 1..j]) else None;
          var keys := stack[|stack| - 1].keys.value;
          if key.None? {
            return None;
          }
          if key.value in keys {
            return Some(true);
          }
          stack := Pop(stack) + [Frame(Some(keys + {key.value}), true)];
        }
        i := j;
      }
      i := i + 1;
    }
    DropAll(text, i);
    return Some(false);
  }

  lemma DropAll(text: jstring, i: nat)
    ensures i == 0 ==> Drop(text, i) == text
    ensures i >= |text| ==> Drop(text, i) == []
  {}
}

/**
 * scripts/lib/precompiles.cjs: merging the two chain arrays and the address book
 * into one table. The regular expressions that find an array, its lines and the pin
 * are taken as applied, with a miss as one outcome; `toKey` and `toName` are parameters.
 */
module Precompiles {
  import opened Wrappers
  import opened Text
  import Hex

  const CHAIN_ID: int := 40204
  const AGENT_FORK_ACTIVATION_HEIGHT: nat := 0

  datatype TableError =
    | WrongChain | NoBook | NoArray | NoPin | UnparseableLine | NotAConst | WrongCount | BadAddress | DuplicateInArray
    | WrongPin | DuplicateInBook | InBothArrays | DuplicateKey

  // ---- addresses ----

  function Strip(h: jstring): jstring {
    if |h| >= 2 && h[0] == '0' as int && h[1] == 'x' as int then h[2..] else h
  }

  /** lines 32-36 */
  function PadAddress(hex: jstring): (r: Option<jstring>)
    ensures r.Some? ==> IsPadded(r.value)
  {
    var h := Strip(Lower(hex));
    if 1 <= |h| <= 40 && AllHex(h) then Some(Of("0x") + PadStart(h, 40)) else None
  }

  predicate IsPadded(a: jstring) { |a| == 42 && a[..2] == Of("0x") && AllHex(a[2..]) }

  /** The order `sort` compares addresses in: that of strings. */
  predicate Less(a: jstring, b: jstring)
    decreases |a|
  {
    if b == [] then false
    else if a == [] then true
    else a[0] < b[0] || (a[0] == b[0] && Less(a[1..], b[1..]))
  }

  lemma {:induction false} LessTotal(a: jstring, b: jstring)
    ensures Less(a, b) || Less(b, a) || a == b
    decreases |a|
  {
    if a != [] && b != [] && a[0] == b[0] {
      LessTotal(a[1..], b[1..]);
      assert a == [a[0]] + a[1..] && b == [b[0]] + b[1..];
    }
  }

  lemma {:induction false} LessTransitive(a: jstring, b: jstring, c: jstring)
    requires Less(a, b) && Less(b, c)
    ensures Less(a, c)
    decreases |a|
  {
    if a != [] && a[0] == b[0] == c[0] {
      LessTransitive(a[1..], b[1..], c[1..]);
    }
  }

  lemma {:induction false} LessIrreflexive(a: jstring)
    ensures !Less(a, a)
    decreases |a|
  {
    if a != [] { LessIrreflexive(a[1..]); }
  }

  lemma HeadDecides(c: nat, p: nat, d: nat, q: nat, w: nat)
    requires p < w && q < w
    ensures c < d ==> c * w + p < d * w + q
    ensures c == d ==> (c * w + p < d * w + q <==> p < q)
  {
    if c < d {
      assert (c + 1) * w <= d * w;
    }
  }

  lemma {:induction false} LessIsNumeric(a: jstring, b: jstring)
    requires |a| == |b| && Hex.AllLower(a) && Hex.AllLower(b)
    ensures Less(a, b) <==> Parse(a, 16) < Parse(b, 16)
    decreases |a|
  {
    if a != [] {
      hide Parse, DigitValue, Power;
      Hex.ParseHead(a);
      Hex.ParseHead(b);
      LessIsNumeric(a[1..], b[1..]);
      var c, d, p, q, w := DigitValue(a[0]), DigitValue(b[0]), Parse(a[1..], 16), Parse(b[1..], 16), Power(16, |a| - 1);
      HeadDecides(c, p, d, q, w);
      HeadDecides(d, q, c, p, w);
    }
  }

  /** The number an address text stands for, whatever its prefix, case and leading zeros. */
  function AddressNumber(hex: jstring): nat { Parse(Strip(Lower(hex)), 16) }

  lemma StrippedIsLower(hex: jstring)
    requires AllHex(Strip(Lower(hex)))
    ensures Hex.AllLower(Strip(Lower(hex)))
  {
    var low := Lower(hex);
    var h := Strip(low);
    var skipped := |low| - |h|;
    forall i | 0 <= i < |h| ensures LowerUnit(h[i]) == h[i] {
      assert h[i] == low[i + skipped];
    }
  }

  lemma ZerosInFront(h: jstring, width: nat)
    requires Hex.AllLower(h) && |h| <= width
    ensures Hex.AllLower(PadStart(h, width)) && Parse(PadStart(h, width), 16) == Parse(h, 16)
  {
    hide Parse;
    if |h| < width {
      ParseZeros(seq(width - |h|, _ => '0' as int), h, 16);
    }
  }

  lemma PaddedDigits(hex: jstring)
    requires PadAddress(hex).Some?
    ensures var digits := PadAddress(hex).value[2..];
            |PadAddress(hex).value| == 42 && |digits| == 40 && Hex.AllLower(digits) && Parse(digits, 16) == AddressNumber(hex)
  {
    hide Lower, Strip, Parse, PadStart, Hex.AllLower, Of;
    var h := Strip(Lower(hex));
    StrippedIsLower(hex);
    ZerosInFront(h, 40);
    assert (Of("0x") + PadStart(h, 40))[2..] == PadStart(h, 40);
  }

  /** Padding is canonical: one text for each address, in the order of the addresses. */
  lemma PaddingIsCanonical(a: jstring, b: jstring)
    requires PadAddress(a).Some? && PadAddress(b).Some?
    ensures PadAddress(a) == PadAddress(b) <==> AddressNumber(a) == AddressNumber(b)
    ensures Less(PadAddress(a).value, PadAddress(b).value) <==> AddressNumber(a) < AddressNumber(b)
  {
    var s, t := PadAddress(a).value, PadAddress(b).value;
    PaddedDigits(a);
    PaddedDigits(b);
    assert s[..2] == t[..2];
    hide *;
    if AddressNumber(a) == AddressNumber(b) {
      Hex.ParseInjective(s[2..], t[2..]);
    }
    LessIsNumeric(s[2..], t[2..]);
    BehindPrefix(s, t);
  }

  lemma BehindPrefix(s: jstring, t: jstring)
    requires |s| == |t| >= 2 && s[..2] == t[..2]
    ensures s == t <==> s[2..] == t[2..]
    ensures Less(s, t) <==> Less(s[2..], t[2..])
  {
    assert s == s[..2] + s[2..] && t == t[..2] + t[2..];
    assert s[0] == s[..2][0] && s[1] == s[..2][1];
    LessBehind(s, t);
    LessBehind(s[1..], t[1..]);
    hide Less;
    assert s[1..][1..] == s[2..] && t[1..][1..] == t[2..];
  }

  lemma LessBehind(s: jstring, t: jstring)
    requires s != [] && t != [] && s[0] == t[0]
    ensures Less(s, t) <==> Less(s[1..], t[1..])
  {}

  // ---- the sources ----

  /** A matched element line: the modules of the constant's path, its name, the digits of its address, a note. */
  datatype Line = Line(modules: seq<jstring>, name: jstring, digits: jstring, note: Option<jstring>)

  /** An array of mod.rs, if it is found: its declared size and its lines, none for one that does not match. */
  datatype Source = Missing | Array(declared: nat, entries: seq<Option<Line>>)

  function Lines(source: Source): seq<Option<Line>> { if source.Array? then source.entries else [] }

  /** What agent_fork.rs says of the chain: nothing, `None`, or a height. */
  datatype Pin = NoEntry | Unpinned | Height(height: nat)

  datatype Element = Element(path: jstring, key: jstring, address: jstring, note: Option<jstring>)

  datatype Book = Book(chainId: int, precompiles: Option<seq<(jstring, jstring)>>)

  datatype Group = Hosted | Pure | Agent

  datatype Row = Row(
    name: jstring, key: jstring, address: jstring, group: Group, bridged: bool,
    activeFromGenesis: bool, chainConst: Option<jstring>, inBook: bool, note: Option<jstring>)

  ghost predicate DistinctAddresses(elements: seq<Element>) {
    forall i, j :: 0 <= i < j < |elements| ==> elements[i].address != elements[j].address
  }

  function PathOf(line: Line): jstring { Joined(line.modules) + line.name }

  function Joined(modules: seq<jstring>): jstring {
    if modules == [] then [] else modules[0] + Of("::") + Joined(modules[1..])
  }

  /** A name in capitals, digits and underscores that begins with a capital. */
  predicate IsConstName(name: jstring) {
    && name != [] && IsCapital(name[0])
    && forall i :: 0 <= i < |name| ==> IsCapital(name[i]) || IsDecimalDigit(name[i]) || name[i] == '_' as int
  }

  predicate IsCapital(c: unit) { 'A' as int <= c <= 'Z' as int }

  /** Constants of the module x402 get its name in front, unless they carry it. */
  function KeyOf(line: Line): jstring {
    if Of("x402") in line.modules && !(Of("X402_") <= line.name) then Of("X402_") + line.name else line.name
  }

  /** The key ends in the constant's name, and begins with X402_ exactly for it and for the module x402. */
  lemma KeyReads(line: Line)
    ensures KeyOf(line) == line.name || KeyOf(line) == Of("X402_") + line.name
    ensures Of("X402_") <= KeyOf(line) <==> Of("X402_") <= line.name || Of("x402") in line.modules
    ensures Of("X402_") <= line.name || Of("x402") !in line.modules ==> KeyOf(line) == line.name
  {
    hide Of;
    assert Of("X402_") <= Of("X402_") + line.name;
  }

  /** The element a line gives, if it names a constant and its digits are an address. */
  function ElementOf(line: Option<Line>): Option<Element> {
    if line.None? || !IsConstName(line.value.name) || PadAddress(line.value.digits).None? then None
    else Some(Element(PathOf(line.value), KeyOf(line.value), PadAddress(line.value.digits).value, line.value.note))
  }

  /** What an element says of its line: all modules and the name, joined by `::`, the number of its address, and the note. */
  lemma ElementReads(line: Line)
    requires ElementOf(Some(line)).Some?
    ensures var e := ElementOf(Some(line)).value;
      && |e.address| == 42 && Parse(e.address[2..], 16) == AddressNumber(line.digits) && e.note == line.note
      && (line.modules == [] ==> e.path == line.name)
      && (line.modules != [] ==>
            e.path == line.modules[0] + Of("::") + PathOf(line.(modules := line.modules[1..])))
  {
    hide Parse, KeyOf, PadAddress, AddressNumber;
    PaddedDigits(line.digits);
    if line.modules != [] {
      var head, rest := line.modules[0] + Of("::"), Joined(line.modules[1..]);
      assert (head + rest) + line.name == head + (rest + line.name);
    }
  }

  /** What a well-formed array parses to. */
  ghost predicate ParsesTo(source: Source, elements: seq<Element>) {
    && source.Array? && |elements| == |source.entries| == source.declared
    && (forall i :: 0 <= i < |elements| ==> ElementOf(source.entries[i]) == Some(elements[i]))
    && DistinctAddresses(elements)
  }

  /** What an error says about the array it refuses. */
  ghost predicate ArrayFault(source: Source, error: TableError) {
    var lines := Lines(source);
    match error
    case NoArray => source.Missing?
    case UnparseableLine => None in lines
    case NotAConst => exists i :: 0 <= i < |lines| && lines[i].Some? && !IsConstName(lines[i].value.name)
    case BadAddress => exists i :: 0 <= i < |lines| && lines[i].Some? && ElementOf(lines[i]).None?
    case WrongCount => source.Array? && |lines| != source.declared
    case DuplicateInArray => exists i, j :: 0 <= i < j < |lines| && SameElementAddress(lines[i], lines[j])
    case _ => false
  }

  predicate SameElementAddress(a: Option<Line>, b: Option<Line>) {
    ElementOf(a).Some? && ElementOf(b).Some? && ElementOf(a).value.address == ElementOf(b).value.address
  }

  /** lines 60-98 */
  method ParseArray(source: Source) returns (r: Result<seq<Element>, TableError>)
    ensures r.Success? ==> ParsesTo(source, r.value)
    ensures r.Failure? ==> ArrayFault(source, r.error) && forall elements :: !ParsesTo(source, elements)
  {
    hide PadAddress, IsConstName, KeyOf, PathOf;
    if source.Missing? {
      return Failure(NoArray);
    }
    var entries: seq<Element> := [];
    for i := 0 to |source.entries|
      invariant |entries| == i
      invariant forall k :: 0 <= k < i ==> ElementOf(source.entries[k]) == Some(entries[k])
    {
      if source.entries[i].None? {
        return Failure(UnparseableLine);
      }
      var line := source.entries[i].value;
      if !IsConstName(line.name) {
        assert ElementOf(source.entries[i]).None?;
        return Failure(NotAConst);
      }
      var address := PadAddress(line.digits);
      if address.None? {
        assert ElementOf(source.entries[i]).None?;
        return Failure(BadAddress);
      }
      entries := entries + [Element(PathOf(line), KeyOf(line), address.value, line.note)];
    }
    if |entries| != source.declared {
      return Failure(WrongCount);
    }
    var repeated, first := FindRepeated(entries);
    if repeated.Some? {
      assert SameElementAddress(source.entries[first], source.entries[repeated.value]);
      NotDistinct(source, entries, first, repeated.value);
      return Failure(DuplicateInArray);
    }
    return Success(entries);
  }

  /** lines 92-96: the first element whose address an earlier one has */
  method FindRepeated(entries: seq<Element>) returns (r: Option<nat>, ghost first: nat)
    ensures r.None? <==> DistinctAddresses(entries)
    ensures r.Some? ==> first < r.value < |entries| && entries[first].address == entries[r.value].address
  {
    var seen: set<jstring> := {};
    first := 0;
    for i := 0 to |entries|
      invariant forall k :: 0 <= k < i ==> entries[k].address in seen
      invariant forall a :: a in seen ==> exists k :: 0 <= k < i && entries[k].address == a
      invariant forall j, k :: 0 <= j < k < i ==> entries[j].address != entries[k].address
    {
      if entries[i].address in seen {
        first :| 0 <= first < i && entries[first].address == entries[i].address;
        return Some(i), first;
      }
      seen := seen + {entries[i].address};
    }
    return None, first;
  }

  lemma NotDistinct(source: Source, entries: seq<Element>, i: nat, j: nat)
    requires source.Array? && |source.entries| == |entries| && i < j < |entries|
    requires forall k :: 0 <= k < |entries| ==> ElementOf(source.entries[k]) == Some(entries[k])
    requires entries[i].address == entries[j].address
    ensures forall elements :: !ParsesTo(source, elements)
  {
    hide ElementOf;
    assert !DistinctAddresses(entries);
    forall elements | ParsesTo(source, elements) ensures elements == entries {
      forall k | 0 <= k < |elements| ensures elements[k] == entries[k] {
        assert ElementOf(source.entries[k]) == Some(elements[k]);
      }
    }
  }

  // ---- the book by address ----

  function AddressAt(entries: seq<(jstring, jstring)>, i: nat): Option<jstring>
    requires i < |entries|
  {
    PadAddress(entries[i].1)
  }

  /** The book's addresses are valid and different, and these are their names. */
  ghost predicate BookIs(entries: seq<(jstring, jstring)>, names: map<jstring, jstring>) {
    && (forall i :: 0 <= i < |entries| ==>
          && AddressAt(entries, i).Some? && AddressAt(entries, i).value in names
          && names[AddressAt(entries, i).value] == entries[i].0)
    && (forall a :: a in names ==> exists i :: 0 <= i < |entries| && AddressAt(entries, i) == Some(a))
    && (forall i, j :: 0 <= i < j < |entries| ==> AddressAt(entries, i) != AddressAt(entries, j))
  }

  lemma BookGrows(before: seq<(jstring, jstring)>, names: map<jstring, jstring>, entry: (jstring, jstring), a: jstring)
    requires BookIs(before, names) && PadAddress(entry.1) == Some(a) && a !in names
    ensures BookIs(before + [entry], names[a := entry.0])
  {
    hide PadAddress;
    var after := before + [entry];
    assert forall i :: 0 <= i < |before| ==> AddressAt(after, i) == AddressAt(before, i);
    assert AddressAt(after, |before|) == Some(a);
    hide AddressAt;
    forall b | b in names[a := entry.0] ensures exists i :: 0 <= i < |after| && AddressAt(after, i) == Some(b) {
      if b != a {
        var i :| 0 <= i < |before| && AddressAt(before, i) == Some(b);
        assert AddressAt(after, i) == Some(b);
      }
    }
  }

  lemma BookRepeats(entries: seq<(jstring, jstring)>, n: nat, names: map<jstring, jstring>)
    requires n < |entries| && BookIs(entries[..n], names)
    requires AddressAt(entries, n).Some? && AddressAt(entries, n).value in names
    ensures forall others :: !BookIs(entries, others)
    ensures BookFault(entries, DuplicateInBook)
  {
    var j :| 0 <= j < n && AddressAt(entries[..n], j) == AddressAt(entries, n);
    assert AddressAt(entries, j) == AddressAt(entries, n);
    hide AddressAt;
  }

  /** What an error says about the book it refuses. */
  ghost predicate BookFault(entries: seq<(jstring, jstring)>, error: TableError) {
    match error
    case BadAddress => exists i :: 0 <= i < |entries| && AddressAt(entries, i).None?
    case DuplicateInBook =>
      exists i, j :: 0 <= i < j < |entries| && AddressAt(entries, i).Some? && AddressAt(entries, i) == AddressAt(entries, j)
    case _ => false
  }

  /** lines 128-133 */
  method BookByAddress(entries: seq<(jstring, jstring)>) returns (r: Result<map<jstring, jstring>, TableError>)
    ensures r.Success? ==> BookIs(entries, r.value)
    ensures r.Failure? ==> BookFault(entries, r.error) && forall names :: !BookIs(entries, names)
  {
    hide PadAddress, BookIs;
    var names: map<jstring, jstring> := map[];
    EmptyBook();
    for i := 0 to |entries|
      invariant BookIs(entries[..i], names)
    {
      var (name, addr) := entries[i];
      var a := PadAddress(addr);
      if a.None? {
        BookInvalid(entries, i);
        return Failure(BadAddress);
      }
      if a.value in names {
        BookRepeats(entries, i, names);
        return Failure(DuplicateInBook);
      }
      BookGrows(entries[..i], names, entries[i], a.value);
      assert entries[..i + 1] == entries[..i] + [entries[i]];
      names := names[a.value := name];
    }
    assert entries[..|entries|] == entries;
    return Success(names);
  }

  lemma EmptyBook()
    ensures BookIs([], map[])
  {}

  lemma BookInvalid(entries: seq<(jstring, jstring)>, i: nat)
    requires i < |entries| && PadAddress(entries[i].1) == None
    ensures forall names :: !BookIs(entries, names)
    ensures BookFault(entries, BadAddress)
  {
    assert AddressAt(entries, i) == None;
  }

  // ---- rows ----

  /** lines 140-151 */
  function BridgedRow(group: Group, e: Element, names: map<jstring, jstring>, toName: jstring -> jstring): Row {
    Row(if e.address in names then names[e.address] else toName(e.key),
        e.key, e.address, group, true, true, Some(e.path), e.address in names, e.note)
  }

  /** lines 158-168 */
  function HostedRow(address: jstring, name: jstring, toKey: jstring -> jstring): Row {
    Row(name, toKey(name), address, Hosted, false, true, None, true, None)
  }

  /** The rows the three sources call for. */
  ghost predicate IsRow(
    row: Row, pure: seq<Element>, agent: seq<Element>, names: map<jstring, jstring>,
    toKey: jstring -> jstring, toName: jstring -> jstring)
  {
    || (exists i :: 0 <= i < |pure| && row == BridgedRow(Pure, pure[i], names, toName))
    || (exists i :: 0 <= i < |agent| && row == BridgedRow(Agent, agent[i], names, toName))
    || (&& row.address in names && row == HostedRow(row.address, names[row.address], toKey)
        && row.address !in Used(pure) && row.address !in Used(agent))
  }

  function Used(elements: seq<Element>): set<jstring> { set e | e in elements :: e.address }

  ghost predicate DistinctKeys(rows: seq<Row>) {
    forall i, j :: 0 <= i < j < |rows| ==> rows[i].key != rows[j].key
  }

  ghost predicate Increasing(rows: seq<Row>) {
    forall i, j :: 0 <= i < j < |rows| ==> Less(rows[i].address, rows[j].address)
  }

  ghost predicate DistinctRows(rows: seq<Row>) {
    forall i, j :: 0 <= i < j < |rows| ==> rows[i].address != rows[j].address
  }

  // ---- sorting, as `Array.prototype.sort` leaves it ----

  function Insert(row: Row, rows: seq<Row>): seq<Row> {
    if rows == [] || Less(row.address, rows[0].address) then [row] + rows
    else [rows[0]] + Insert(row, rows[1..])
  }

  function Sort(rows: seq<Row>): seq<Row> {
    if rows == [] then [] else Insert(rows[0], Sort(rows[1..]))
  }

  lemma InsertAtHead(row: Row, rows: seq<Row>)
    requires Increasing(rows) && rows != [] && Less(row.address, rows[0].address)
    ensures Increasing([row] + rows)
  {
    hide Less;
    forall i | 0 < i < |rows| ensures Less(row.address, rows[i].address) {
      LessTransitive(row.address, rows[0].address, rows[i].address);
    }
  }

  lemma HeadStays(head: Row, row: Row, tail: seq<Row>, rest: seq<Row>)
    requires Increasing([head] + tail) && Increasing(rest) && Less(head.address, row.address)
    requires multiset(rest) == multiset(tail) + multiset{row}
    ensures Increasing([head] + rest)
  {
    hide Less;
    forall i | 0 <= i < |rest| ensures Less(head.address, rest[i].address) {
      assert rest[i] in multiset(rest);
      if rest[i] != row {
        var k :| 0 <= k < |tail| && tail[k] == rest[i];
        assert ([head] + tail)[k + 1] == tail[k] && ([head] + tail)[0] == head;
      }
    }
  }

  lemma {:induction false} InsertLaw(row: Row, rows: seq<Row>)
    requires Increasing(rows) && forall i :: 0 <= i < |rows| ==> rows[i].address != row.address
    ensures Increasing(Insert(row, rows))
    ensures multiset(Insert(row, rows)) == multiset(rows) + multiset{row}
    decreases |rows|
  {
    hide Less;
    if rows == [] {
    } else if Less(row.address, rows[0].address) {
      InsertAtHead(row, rows);
    } else {
      InsertLaw(row, rows[1..]);
      assert rows == [rows[0]] + rows[1..];
      LessTotal(row.address, rows[0].address);
      hide Increasing;
      HeadStays(rows[0], row, rows[1..], Insert(row, rows[1..]));
    }
  }

  lemma {:induction false} SortLaw(rows: seq<Row>)
    requires DistinctRows(rows)
    ensures Increasing(Sort(rows)) && multiset(Sort(rows)) == multiset(rows)
  {
    if rows != [] {
      SortLaw(rows[1..]);
      assert rows == [rows[0]] + rows[1..];
      var sorted := Sort(rows[1..]);
      forall i | 0 <= i < |sorted| ensures sorted[i].address != rows[0].address {
        assert sorted[i] in multiset(sorted);
        assert sorted[i] in rows[1..];
      }
      InsertLaw(rows[0], sorted);
    }
  }

  lemma SortKeeps(rows: seq<Row>)
    requires DistinctRows(rows)
    ensures forall row :: row in Sort(rows) <==> row in rows
    ensures DistinctKeys(rows) ==> DistinctKeys(Sort(rows))
  {
    SortLaw(rows);
    var sorted := Sort(rows);
    forall row ensures row in sorted <==> row in rows {
      assert row in sorted <==> row in multiset(sorted);
      assert row in rows <==> row in multiset(rows);
    }
    if DistinctKeys(rows) {
      forall i, j | 0 <= i < j < |sorted| ensures sorted[i].key != sorted[j].key {
        assert sorted[i] in rows && sorted[j] in rows;
        var a :| 0 <= a < |rows| && rows[a] == sorted[i];
        var b :| 0 <= b < |rows| && rows[b] == sorted[j];
        LessIrreflexive(sorted[i].address);
        assert a != b;
      }
    }
  }

  // ---- the table ----

  /** The rows of the first elements of an array, in order. */
  function BridgedRows(group: Group, elements: seq<Element>, names: map<jstring, jstring>, toName: jstring -> jstring): (rows: seq<Row>)
    ensures |rows| == |elements|
    ensures forall i :: 0 <= i < |rows| ==> rows[i] == BridgedRow(group, elements[i], names, toName)
  {
    seq(|elements|, i requires 0 <= i < |elements| => BridgedRow(group, elements[i], names, toName))
  }

  /** lines 137-154: one array's rows, refused when an address is already used */
  method PushAll(
    group: Group, elements: seq<Element>, used: set<jstring>, names: map<jstring, jstring>, toName: jstring -> jstring)
    returns (r: Result<seq<Row>, TableError>)
    requires DistinctAddresses(elements)
    ensures r.Success? <==> Used(elements) !! used
    ensures r.Success? ==> r.value == BridgedRows(group, elements, names, toName)
  {
    var rows: seq<Row> := [];
    var now := used;
    for i := 0 to |elements|
      invariant rows == BridgedRows(group, elements[..i], names, toName)
      invariant now == used + Used(elements[..i]) && Used(elements[..i]) !! used
    {
      var e := elements[i];
      assert elements[..i + 1] == elements[..i] + [e];
      if e.address in now {
        assert e in elements && e.address in Used(elements);
        return Failure(InBothArrays);
      }
      now := now + {e.address};
      rows := rows + [BridgedRow(group, e, names, toName)];
    }
    assert elements[..|elements|] == elements;
    return Success(rows);
  }

  /** The row of book entry `k`. */
  function HostedAt(entries: seq<(jstring, jstring)>, k: nat, toKey: jstring -> jstring): Row
    requires k < |entries| && AddressAt(entries, k).Some?
  {
    HostedRow(AddressAt(entries, k).value, entries[k].0, toKey)
  }

  /** The rows are those of the first `n` book entries whose address is unused. */
  ghost predicate HostedUpTo(
    rows: seq<Row>, entries: seq<(jstring, jstring)>, n: nat, used: set<jstring>, toKey: jstring -> jstring)
    requires n <= |entries| && forall k :: 0 <= k < |entries| ==> AddressAt(entries, k).Some?
  {
    && (forall k :: 0 <= k < n && AddressAt(entries, k).value !in used ==> HostedAt(entries, k, toKey) in rows)
    && (forall i :: 0 <= i < |rows| ==> exists k :: 0 <= k < n && rows[i] == HostedAt(entries, k, toKey))
    && (forall i :: 0 <= i < |rows| ==> rows[i].address !in used)
    && DistinctRows(rows)
  }

  /** lines 155-169 */
  method PushHosted(
    entries: seq<(jstring, jstring)>, names: map<jstring, jstring>, used: set<jstring>, toKey: jstring -> jstring)
    returns (rows: seq<Row>)
    requires BookIs(entries, names)
    ensures HostedUpTo(rows, entries, |entries|, used, toKey)
  {
    hide PadAddress;
    rows := [];
    for i := 0 to |entries|
      invariant HostedUpTo(rows, entries, i, used, toKey)
    {
      var a := AddressAt(entries, i).value;
      if a !in used {
        rows := rows + [HostedAt(entries, i, toKey)];
      }
    }
  }

  lemma HostedAre(
    rows: seq<Row>, entries: seq<(jstring, jstring)>, used: set<jstring>, names: map<jstring, jstring>, toKey: jstring -> jstring)
    requires BookIs(entries, names) && HostedUpTo(rows, entries, |entries|, used, toKey)
    ensures forall row :: row in rows <==>
              row.address in names && row.address !in used && row == HostedRow(row.address, names[row.address], toKey)
  {
    hide AddressAt;
    forall row ensures row in rows <==>
        row.address in names && row.address !in used && row == HostedRow(row.address, names[row.address], toKey)
    {
      if row in rows {
        var i :| 0 <= i < |rows| && rows[i] == row;
        var k :| 0 <= k < |entries| && rows[i] == HostedAt(entries, k, toKey);
      }
      if row.address in names && row.address !in used && row == HostedRow(row.address, names[row.address], toKey) {
        var k :| 0 <= k < |entries| && AddressAt(entries, k) == Some(row.address);
        assert HostedAt(entries, k, toKey) == row;
      }
    }
  }

  /** The sources one by one: each well formed and fit for the release. */
  ghost predicate Readable(
    pureSource: Source, agentSource: Source, pin: Pin, book: Book,
    pure: seq<Element>, agent: seq<Element>, names: map<jstring, jstring>)
  {
    && book.chainId == CHAIN_ID && (pin == Unpinned || pin == Height(AGENT_FORK_ACTIVATION_HEIGHT))
    && ParsesTo(pureSource, pure) && ParsesTo(agentSource, agent)
    && book.precompiles.Some? && BookIs(book.precompiles.value, names)
  }

  /** The three sources agree with each other and with the release. */
  ghost predicate Sources(
    pureSource: Source, agentSource: Source, pin: Pin, book: Book,
    pure: seq<Element>, agent: seq<Element>, names: map<jstring, jstring>)
  {
    Readable(pureSource, agentSource, pin, book, pure, agent, names) && Used(pure) !! Used(agent)
  }

  /** The table: sorted, without repeated keys, with exactly the rows the sources call for. */
  ghost predicate IsTable(
    rows: seq<Row>, pure: seq<Element>, agent: seq<Element>, names: map<jstring, jstring>,
    toKey: jstring -> jstring, toName: jstring -> jstring)
  {
    && Increasing(rows) && DistinctKeys(rows)
    && forall row :: row in rows <==> IsRow(row, pure, agent, names, toKey, toName)
  }

  lemma AddressesDiffer(group: Group, elements: seq<Element>, names: map<jstring, jstring>, toName: jstring -> jstring)
    requires DistinctAddresses(elements)
    ensures DistinctRows(BridgedRows(group, elements, names, toName))
    ensures forall row :: row in BridgedRows(group, elements, names, toName) ==> row.address in Used(elements)
  {
    forall row | row in BridgedRows(group, elements, names, toName) ensures row.address in Used(elements) {
      var i :| 0 <= i < |elements| && row == BridgedRow(group, elements[i], names, toName);
      assert elements[i] in elements;
    }
  }

  lemma RowsJoin(a: seq<Row>, b: seq<Row>, used: set<jstring>)
    requires DistinctRows(a) && DistinctRows(b)
    requires forall row :: row in a ==> row.address in used
    requires forall row :: row in b ==> row.address !in used
    ensures DistinctRows(a + b)
  {
    assert forall i :: 0 <= i < |a| ==> a[i] in a;
    assert forall i :: 0 <= i < |b| ==> b[i] in b;
  }

  /** All rows together, before sorting. */
  lemma UnsortedRows(
    bridged: seq<Row>, hosted: seq<Row>, pure: seq<Element>, agent: seq<Element>,
    names: map<jstring, jstring>, toKey: jstring -> jstring, toName: jstring -> jstring)
    requires DistinctAddresses(pure) && DistinctAddresses(agent) && Used(pure) !! Used(agent)
    requires bridged == BridgedRows(Pure, pure, names, toName) + BridgedRows(Agent, agent, names, toName)
    requires DistinctRows(hosted)
    requires forall row :: row in hosted <==>
               row.address in names && row.address !in Used(pure) + Used(agent)
               && row == HostedRow(row.address, names[row.address], toKey)
    ensures DistinctRows(bridged + hosted)
    ensures forall row :: row in bridged + hosted <==> IsRow(row, pure, agent, names, toKey, toName)
  {
    hide Used, DistinctRows, DistinctAddresses, BridgedRow, HostedRow;
    AddressesDiffer(Pure, pure, names, toName);
    AddressesDiffer(Agent, agent, names, toName);
    RowsJoin(BridgedRows(Pure, pure, names, toName), BridgedRows(Agent, agent, names, toName), Used(pure));
    RowsJoin(bridged, hosted, Used(pure) + Used(agent));
  }

  /** Keys of the rows so far, lines 171-175. */
  method CheckKeys(rows: seq<Row>) returns (ok: bool)
    ensures ok <==> DistinctKeys(rows)
  {
    var keys: set<jstring> := {};
    for i := 0 to |rows|
      invariant forall k :: k in keys <==> exists j :: 0 <= j < i && rows[j].key == k
      invariant DistinctKeys(rows[..i])
    {
      if rows[i].key in keys {
        return false;
      }
      keys := keys + {rows[i].key};
    }
    assert rows[..|rows|] == rows;
    return true;
  }

  /** What an error says about the sources it refuses. */
  ghost predicate Fault(pureSource: Source, agentSource: Source, pin: Pin, book: Book, error: TableError) {
    match error
    case WrongChain => book.chainId != CHAIN_ID
    case NoBook => book.precompiles.None?
    case NoPin => pin == NoEntry
    case WrongPin => pin.Height? && pin.height != AGENT_FORK_ACTIVATION_HEIGHT
    case InBothArrays =>
      exists i, j :: 0 <= i < |Lines(pureSource)| && 0 <= j < |Lines(agentSource)|
                     && SameElementAddress(Lines(pureSource)[i], Lines(agentSource)[j])
    case DuplicateKey => true
    case _ =>
      ArrayFault(pureSource, error) || ArrayFault(agentSource, error)
      || (book.precompiles.Some? && BookFault(book.precompiles.value, error))
  }

  /** Only the merge itself reports the chain, a missing book, the pin, a shared address or a shared key. */
  lemma OwnErrors(pureSource: Source, agentSource: Source, entries: seq<(jstring, jstring)>)
    ensures forall error :: ArrayFault(pureSource, error) || ArrayFault(agentSource, error) || BookFault(entries, error) ==>
              error !in {WrongChain, NoBook, NoPin, WrongPin, InBothArrays, DuplicateKey}
  {}

  lemma SharedAddress(pureSource: Source, agentSource: Source, pure: seq<Element>, agent: seq<Element>)
    requires ParsesTo(pureSource, pure) && ParsesTo(agentSource, agent) && !(Used(pure) !! Used(agent))
    ensures exists i, j :: 0 <= i < |Lines(pureSource)| && 0 <= j < |Lines(agentSource)|
                           && SameElementAddress(Lines(pureSource)[i], Lines(agentSource)[j])
  {
    hide ElementOf;
    var a :| a in Used(pure) && a in Used(agent);
    var e, f :| e in pure && f in agent && e.address == a && f.address == a;
    var i :| 0 <= i < |pure| && pure[i] == e;
    var j :| 0 <= j < |agent| && agent[j] == f;
    assert SameElementAddress(Lines(pureSource)[i], Lines(agentSource)[j]);
  }

  datatype Parsed = Parsed(pure: seq<Element>, agent: seq<Element>, names: map<jstring, jstring>)

  /** lines 115-133 */
  method ReadSources(pureSource: Source, agentSource: Source, pin: Pin, book: Book) returns (r: Result<Parsed, TableError>)
    ensures r.Success? ==> Readable(pureSource, agentSource, pin, book, r.value.pure, r.value.agent, r.value.names)
    ensures r.Failure? ==> r.error != InBothArrays && r.error != DuplicateKey && Fault(pureSource, agentSource, pin, book, r.error)
    ensures r.Failure? ==> forall p, a, n :: !Readable(pureSource, agentSource, pin, book, p, a, n)
  {
    OwnErrors(pureSource, agentSource, if book.precompiles.Some? then book.precompiles.value else []);
    hide ParsesTo, BookIs, ArrayFault, BookFault, SameElementAddress;
    if book.chainId != CHAIN_ID {
      return Failure(WrongChain);
    }
    if book.precompiles.None? {
      return Failure(NoBook);
    }
    var pure := ParseArray(pureSource);
    if pure.Failure? {
      return Failure(pure.error);
    }
    var agent := ParseArray(agentSource);
    if agent.Failure? {
      return Failure(agent.error);
    }
    if pin == NoEntry {
      return Failure(NoPin);
    }
    if pin.Height? && pin.height != AGENT_FORK_ACTIVATION_HEIGHT {
      return Failure(WrongPin);
    }
    var byAddress := BookByAddress(book.precompiles.value);
    if byAddress.Failure? {
      return Failure(byAddress.error);
    }
    return Success(Parsed(pure.value, agent.value, byAddress.value));
  }

  /** lines 135-176: the rows of parsed sources, refused for a shared address or a shared key */
  method Merge(
    pure: seq<Element>, agent: seq<Element>, entries: seq<(jstring, jstring)>, names: map<jstring, jstring>,
    toKey: jstring -> jstring, toName: jstring -> jstring)
    returns (r: Result<seq<Row>, TableError>)
    requires DistinctAddresses(pure) && DistinctAddresses(agent) && BookIs(entries, names)
    ensures r.Success? ==> Used(pure) !! Used(agent) && IsTable(r.value, pure, agent, names, toKey, toName)
    ensures r.Failure? ==> r.error == if Used(pure) !! Used(agent) then DuplicateKey else InBothArrays
    ensures r == Failure(DuplicateKey) ==> forall rows :: !IsTable(rows, pure, agent, names, toKey, toName)
  {
    hide BookIs, Used, IsRow, HostedUpTo, Increasing, DistinctKeys;
    var pureRows := PushAll(Pure, pure, {}, names, toName);
    var used := Used(pure);
    var agentRows := PushAll(Agent, agent, used, names, toName);
    if agentRows.Failure? {
      return Failure(InBothArrays);
    }
    var bridged := pureRows.value + agentRows.value;
    var hosted := PushHosted(entries, names, used + Used(agent), toKey);
    HostedDistinct(hosted, entries, used + Used(agent), names, toKey);
    HostedAre(hosted, entries, used + Used(agent), names, toKey);
    UnsortedRows(bridged, hosted, pure, agent, names, toKey, toName);
    var rows := bridged + hosted;
    SortKeeps(rows);
    SortLaw(rows);
    var distinct := CheckKeys(rows);
    if !distinct {
      SharedKey(rows, pure, agent, names, toKey, toName);
      return Failure(DuplicateKey);
    }
    return Success(Sort(rows));
  }

  /**
   * lines 114-187. Whatever the sources are, success gives their table; and it is
   * refused only when the sources disagree or two rows would share a key.
   */
  method BuildTable(
    pureSource: Source, agentSource: Source, pin: Pin, book: Book,
    toKey: jstring -> jstring, toName: jstring -> jstring)
    returns (r: Result<seq<Row>, TableError>, ghost pure: seq<Element>, ghost agent: seq<Element>, ghost names: map<jstring, jstring>)
    ensures r.Success? ==> Sources(pureSource, agentSource, pin, book, pure, agent, names)
    ensures r.Success? ==> IsTable(r.value, pure, agent, names, toKey, toName)
    ensures r.Failure? ==> Fault(pureSource, agentSource, pin, book, r.error)
    ensures r.Failure? && r.error != DuplicateKey ==>
              forall p, a, n :: !Sources(pureSource, agentSource, pin, book, p, a, n)
    ensures r.Failure? && r.error == DuplicateKey ==>
              && Sources(pureSource, agentSource, pin, book, pure, agent, names)
              && forall rows :: !IsTable(rows, pure, agent, names, toKey, toName)
  {
    hide ParsesTo, BookIs, IsTable, Used, ArrayFault, BookFault, SameElementAddress;
    pure, agent, names := [], [], map[];
    var sources := ReadSources(pureSource, agentSource, pin, book);
    if sources.Failure? {
      return Failure(sources.error), pure, agent, names;
    }
    var parsed := sources.value;
    pure, agent, names := parsed.pure, parsed.agent, parsed.names;
    ParsedDiffer(pureSource, parsed.pure);
    ParsedDiffer(agentSource, parsed.agent);
    r := Merge(parsed.pure, parsed.agent, book.precompiles.value, parsed.names, toKey, toName);
    if !(Used(pure) !! Used(agent)) {
      ParseIsUnique(pureSource, pure);
      ParseIsUnique(agentSource, agent);
      SharedAddress(pureSource, agentSource, pure, agent);
    }
  }

  lemma HostedDistinct(
    rows: seq<Row>, entries: seq<(jstring, jstring)>, used: set<jstring>, names: map<jstring, jstring>, toKey: jstring -> jstring)
    requires BookIs(entries, names) && HostedUpTo(rows, entries, |entries|, used, toKey)
    ensures DistinctRows(rows)
  {}

  lemma ParsedDiffer(source: Source, elements: seq<Element>)
    requires ParsesTo(source, elements)
    ensures DistinctAddresses(elements)
  {}

  lemma ParseIsUnique(source: Source, elements: seq<Element>)
    requires ParsesTo(source, elements)
    ensures forall others :: ParsesTo(source, others) ==> others == elements
  {
    hide ElementOf;
    forall others | ParsesTo(source, others) ensures others == elements {
      forall i | 0 <= i < |others| ensures others[i] == elements[i] {
        assert ElementOf(source.entries[i]) == Some(others[i]);
      }
    }
  }

  /** No table has these rows when two of them share a key. */
  lemma SharedKey(
    rows: seq<Row>, pure: seq<Element>, agent: seq<Element>, names: map<jstring, jstring>,
    toKey: jstring -> jstring, toName: jstring -> jstring)
    requires DistinctRows(rows) && !DistinctKeys(rows)
    requires forall row :: row in rows <==> IsRow(row, pure, agent, names, toKey, toName)
    ensures forall table :: !IsTable(table, pure, agent, names, toKey, toName)
  {
    hide IsRow;
    var i, j :| 0 <= i < j < |rows| && rows[i].key == rows[j].key;
    assert rows[i] in rows && rows[j] in rows && rows[i] != rows[j];
    forall table ensures !IsTable(table, pure, agent, names, toKey, toName) {
      if IsTable(table, pure, agent, names, toKey, toName) {
      }
    }
  }

  /** What a row of an array's element says, whatever the book calls it. */
  predicate DescribesElement(row: Row, e: Element, names: map<jstring, jstring>, toName: jstring -> jstring) {
    && row.address == e.address && row.key == e.key && row.chainConst == Some(e.path) && row.note == e.note
    && (row.address !in names ==> row.name == toName(e.key))
  }

  /** Where a row's address comes from is what its group, flags, name, key, constant and note say. */
  ghost predicate Attributed(
    row: Row, pure: seq<Element>, agent: seq<Element>, names: map<jstring, jstring>,
    toKey: jstring -> jstring, toName: jstring -> jstring)
  {
    && (row.group == Pure <==> row.address in Used(pure))
    && (row.group == Agent <==> row.address in Used(agent))
    && (row.bridged <==> row.address in Used(pure) + Used(agent))
    && (row.inBook <==> row.address in names)
    && (row.inBook ==> row.name == names[row.address])
    && row.activeFromGenesis
    && (row.group == Pure ==> exists e :: e in pure && DescribesElement(row, e, names, toName))
    && (row.group == Agent ==> exists e :: e in agent && DescribesElement(row, e, names, toName))
    && (row.group == Hosted ==> row.key == toKey(row.name) && row.chainConst == None && row.note == None)
  }

  /** The table's addresses are exactly those of the arrays and the book, each row attributed to its source. */
  lemma TableMeaning(
    rows: seq<Row>, pure: seq<Element>, agent: seq<Element>, names: map<jstring, jstring>,
    toKey: jstring -> jstring, toName: jstring -> jstring)
    requires IsTable(rows, pure, agent, names, toKey, toName) && Used(pure) !! Used(agent)
    ensures (set row | row in rows :: row.address) == Used(pure) + Used(agent) + names.Keys
    ensures forall row :: row in rows ==> Attributed(row, pure, agent, names, toKey, toName)
  {
    forall row | row in rows ensures Attributed(row, pure, agent, names, toKey, toName) {
      RowAttributed(row, pure, agent, names, toKey, toName);
    }
    var addresses := set row | row in rows :: row.address;
    forall a ensures a in addresses <==> a in Used(pure) + Used(agent) + names.Keys {
      if a in Used(pure) + Used(agent) + names.Keys {
        var row := SomeRow(a, pure, agent, names, toKey, toName);
        assert row in rows;
      }
      if a in addresses {
        var row :| row in rows && row.address == a;
      }
    }
  }

  lemma RowAttributed(
    row: Row, pure: seq<Element>, agent: seq<Element>, names: map<jstring, jstring>,
    toKey: jstring -> jstring, toName: jstring -> jstring)
    requires IsRow(row, pure, agent, names, toKey, toName) && Used(pure) !! Used(agent)
    ensures Attributed(row, pure, agent, names, toKey, toName)
  {
    if i :| 0 <= i < |pure| && row == BridgedRow(Pure, pure[i], names, toName) {
      assert pure[i] in pure && DescribesElement(row, pure[i], names, toName);
    } else if i :| 0 <= i < |agent| && row == BridgedRow(Agent, agent[i], names, toName) {
      assert agent[i] in agent && DescribesElement(row, agent[i], names, toName);
    }
  }

  lemma SomeRow(
    a: jstring, pure: seq<Element>, agent: seq<Element>, names: map<jstring, jstring>,
    toKey: jstring -> jstring, toName: jstring -> jstring)
    returns (row: Row)
    requires a in Used(pure) + Used(agent) + names.Keys
    ensures row.address == a && IsRow(row, pure, agent, names, toKey, toName)
  {
    if a in Used(pure) {
      var e :| e in pure && e.address == a;
      var i :| 0 <= i < |pure| && pure[i] == e;
      row := BridgedRow(Pure, pure[i], names, toName);
    } else if a in Used(agent) {
      var e :| e in agent && e.address == a;
      var i :| 0 <= i < |agent| && agent[i] == e;
      row := BridgedRow(Agent, agent[i], names, toName);
    } else {
      row := HostedRow(a, names[a], toKey);
    }
  }
}

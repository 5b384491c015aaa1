/**
 * src/utils/network.ts: resolving a provider to its endpoints and checking the
 * genesis each of them reports. Providers are nodes of a heap that may be cyclic;
 * `Heap` gives what the walk reads of each.
 */
module Network {
  import opened Wrappers
  import opened Text

  type Id = nat

  /** An entry of `providerConfigs`: the provider it names, if that is an object at all. */
  type Entry = Option<Id>

  datatype Configs =
    | Undefined              // no providerConfigs: a concrete endpoint
    | NotAList               // anything that is no array
    | Entries(list: seq<Entry>)

  datatype Provider = Provider(hasGetBlock: bool, configs: Configs)

  type Heap = Id -> Provider

  const MAX_PROVIDER_NESTING: nat := 8

  datatype Unresolvable = ContainsItself | NestedTooDeep | NoGetBlock | BadConfigs | NoProvider

  // ---- what the walk should find ----

  predicate IsLeaf(heap: Heap, n: Id) { heap(n).configs == Undefined }

  ghost predicate IsChild(heap: Heap, parent: Id, child: Id) {
    heap(parent).configs.Entries? && Some(child) in heap(parent).configs.list
  }

  /** A path of provider entries, from its first node. */
  ghost predicate IsPath(heap: Heap, path: seq<Id>) {
    path != [] && forall i :: 0 < i < |path| ==> IsChild(heap, path[i - 1], path[i])
  }

  ghost predicate IsPathFrom(heap: Heap, source: Id, path: seq<Id>) {
    IsPath(heap, path) && path[0] == source
  }

  ghost predicate Reachable(heap: Heap, source: Id, n: Id) {
    exists path :: IsPathFrom(heap, source, path) && path[|path| - 1] == n
  }

  predicate WellFormedProvider(p: Provider) {
    match p.configs
    case Undefined => p.hasGetBlock
    case NotAList => false
    case Entries(list) => list != [] && forall i :: 0 <= i < |list| ==> list[i].Some?
  }

  /** Along the path nothing repeats, at most 8 providers stand above the last one, and the last node is well formed. */
  ghost predicate SoundPath(heap: Heap, path: seq<Id>)
    requires path != []
  {
    NoRepeats(path) && |path| <= 9 && WellFormedProvider(heap(path[|path| - 1]))
  }

  /** What is wrong with a provider below these. */
  predicate NodeFault(heap: Heap, above: seq<Id>, node: Id, error: Unresolvable) {
    match error
    case ContainsItself => node in above
    case NestedTooDeep => |above| > 8
    case NoGetBlock => heap(node).configs == Undefined && !heap(node).hasGetBlock
    case BadConfigs => heap(node).configs == NotAList || heap(node).configs == Entries([])
    case NoProvider => heap(node).configs.Entries? && None in heap(node).configs.list
  }

  /** What is wrong at the end of a path. */
  predicate Fault(heap: Heap, path: seq<Id>, error: Unresolvable)
    requires path != []
  {
    NodeFault(heap, path[..|path| - 1], path[|path| - 1], error)
  }

  /** No cycle, no nesting beyond the bound and no malformed node can be reached. */
  ghost predicate Resolvable(heap: Heap, source: Id) {
    forall path :: IsPathFrom(heap, source, path) ==> SoundPath(heap, path)
  }

  /** The list and the set of leaves found so far agree. */
  ghost predicate SameLeaves(leaves: seq<Id>, seen: set<Id>) {
    NoRepeats(leaves) && forall n :: n in seen <==> n in leaves
  }

  /** The leaves reachable from `node` have been added to those before, and nothing else. */
  ghost predicate LeavesOf(now: seq<Id>, before: seq<Id>, heap: Heap, node: Id) {
    forall n :: n in now <==> n in before || (IsLeaf(heap, n) && Reachable(heap, node, n))
  }

  /** The same for all of some entries. */
  ghost predicate LeavesThrough(now: seq<Id>, before: seq<Id>, heap: Heap, entries: seq<Entry>) {
    forall n :: n in now <==> n in before || (IsLeaf(heap, n) && ReachableFromSome(heap, entries, n))
  }

  ghost predicate ReachableFromSome(heap: Heap, entries: seq<Entry>, n: Id) {
    exists k :: 0 <= k < |entries| && entries[k].Some? && Reachable(heap, entries[k].value, n)
  }

  // ---- the order in which leaves are met ----

  /** The leaves below a node from left to right, as often as they are met. */
  function Met(heap: Heap, node: Id, fuel: nat): seq<Id>
    decreases fuel, 0
  {
    match heap(node).configs
    case Undefined => [node]
    case NotAList => []
    case Entries(list) => if fuel == 0 then [] else MetThrough(heap, list, fuel - 1)
  }

  function MetThrough(heap: Heap, entries: seq<Entry>, fuel: nat): seq<Id>
    decreases fuel, |entries|
  {
    if entries == [] then []
    else
      var init, last := entries[..|entries| - 1], entries[|entries| - 1];
      MetThrough(heap, init, fuel) + (if last.Some? then Met(heap, last.value, fuel) else [])
  }

  /** The list with those of `more` added, in order, that it does not have yet. */
  function AddNew(leaves: seq<Id>, more: seq<Id>): seq<Id> {
    if more == [] then leaves
    else
      var before, last := AddNew(leaves, more[..|more| - 1]), more[|more| - 1];
      if last in before then before else before + [last]
  }

  lemma {:induction false} AddNewJoins(leaves: seq<Id>, a: seq<Id>, b: seq<Id>)
    ensures AddNew(AddNew(leaves, a), b) == AddNew(leaves, a + b)
    decreases |b|
  {
    if b == [] {
      assert a + b == a;
    } else {
      assert (a + b)[..|a + b| - 1] == a + b[..|b| - 1];
      AddNewJoins(leaves, a, b[..|b| - 1]);
    }
  }

  lemma MetLeaf(heap: Heap, node: Id, fuel: nat, leaves: seq<Id>)
    requires IsLeaf(heap, node)
    ensures AddNew(leaves, Met(heap, node, fuel)) == if node in leaves then leaves else leaves + [node]
  {
    assert [node][..0] == [];
    assert AddNew(leaves, []) == leaves;
  }

  lemma MetNone(heap: Heap, fuel: nat, leaves: seq<Id>)
    ensures AddNew(leaves, MetThrough(heap, [], fuel)) == leaves
  {}

  lemma MetNext(heap: Heap, list: seq<Entry>, i: nat, fuel: nat, leaves: seq<Id>)
    requires i < |list| && list[i].Some?
    ensures AddNew(AddNew(leaves, MetThrough(heap, list[..i], fuel)), Met(heap, list[i].value, fuel))
         == AddNew(leaves, MetThrough(heap, list[..i + 1], fuel))
  {
    assert list[..i + 1][..i] == list[..i];
    AddNewJoins(leaves, MetThrough(heap, list[..i], fuel), Met(heap, list[i].value, fuel));
  }

  /** The endpoints behind a provider: each leaf where it is first met. */
  function Endpoints(heap: Heap, source: Id): seq<Id> { AddNew([], Met(heap, source, MAX_PROVIDER_NESTING + 1)) }

  // ---- the walk ----

  /** The two collections the closure of lines 77-101 fills. */
  class Walker {
    var leaves: seq<Id>
    var seenLeaves: set<Id>

    constructor ()
      ensures leaves == [] && seenLeaves == {}
    {
      leaves, seenLeaves := [], {};
    }

    ghost predicate Valid()
      reads this
    {
      SameLeaves(leaves, seenLeaves)
    }

    /** lines 79-101. `ancestors + [node]` is the path walked so far. */
    method Walk(heap: Heap, node: Id, ancestors: seq<Id>) returns (r: Result<(), Unresolvable>)
      requires Valid() && NoRepeats(ancestors) && |ancestors| <= MAX_PROVIDER_NESTING + 1
      requires IsPath(heap, ancestors + [node])
      modifies this
      ensures Valid() && old(leaves) <= leaves
      ensures r.Success? ==> SoundBelow(heap, ancestors, node)
      ensures r.Success? ==> LeavesOf(leaves, old(leaves), heap, node) && leaves != []
      ensures r.Success? ==> leaves == AddNew(old(leaves), Met(heap, node, MAX_PROVIDER_NESTING + 1 - |ancestors|))
      ensures r.Failure? ==> UnsoundBelow(heap, ancestors, node, r.error)
      decreases MAX_PROVIDER_NESTING + 2 - |ancestors|
    {
      hide AddNew, Met, MetThrough;
      hide IsPath, SoundPath, SoundBelow, UnsoundBelow, Reachable, LeavesOf, LeavesThrough, IsChild, SameLeaves, NoRepeats;
      var path := ancestors + [node];
      if node in ancestors {
        Refuse(heap, ancestors, node, ContainsItself);
        return Failure(ContainsItself);
      }
      if |ancestors| > MAX_PROVIDER_NESTING {
        Refuse(heap, ancestors, node, NestedTooDeep);
        return Failure(NestedTooDeep);
      }
      NoRepeatsGrows(ancestors, node);
      var configs := heap(node).configs;
      if configs == Undefined {
        if !heap(node).hasGetBlock {
          Refuse(heap, ancestors, node, NoGetBlock);
          return Failure(NoGetBlock);
        }
        LeafBelow(heap, ancestors, node);
        LeafCollected(leaves, seenLeaves, heap, node);
        MetLeaf(heap, node, MAX_PROVIDER_NESTING + 1 - |ancestors|, leaves);
        SeenLeaf(leaves, seenLeaves, node);
        if node !in seenLeaves {
          seenLeaves := seenLeaves + {node};
          leaves := leaves + [node];
        }
        return Success(());
      }
      if configs == NotAList || configs.list == [] {
        Refuse(heap, ancestors, node, BadConfigs);
        return Failure(BadConfigs);
      }
      var list := configs.list;
      NoLeavesYet(leaves, heap);
      ghost var fuel := MAX_PROVIDER_NESTING - |ancestors|;
      MetNone(heap, fuel, leaves);
      for i := 0 to |list|
        invariant Valid() && old(leaves) <= leaves
        invariant forall k :: 0 <= k < i ==> list[k].Some? && SoundBelow(heap, path, list[k].value)
        invariant LeavesThrough(leaves, old(leaves), heap, list[..i])
        invariant i > 0 ==> leaves != []
        invariant leaves == AddNew(old(leaves), MetThrough(heap, list[..i], fuel))
      {
        if list[i].None? {
          Refuse(heap, ancestors, node, NoProvider);
          return Failure(NoProvider);
        }
        var child := list[i].value;
        ExtendPath(heap, ancestors, node, i);
        ghost var before := leaves;
        var below := Walk(heap, child, path);
        if below.Failure? {
          RefuseBelow(heap, ancestors, node, child, below.error);
          return Failure(below.error);
        }
        MetNext(heap, list, i, fuel, old(leaves));
        LeavesGrow(leaves, before, old(leaves), heap, list, i);
      }
      InnerBelow(heap, ancestors, node);
      assert list[..|list|] == list;
      LeavesBelow(leaves, old(leaves), heap, node);
      MetBelow(heap, node, fuel);
      return Success(());
    }
  }

  /** Every continuation of the path through `node` is sound. */
  ghost predicate SoundBelow(heap: Heap, ancestors: seq<Id>, node: Id) {
    forall path :: IsPathFrom(heap, node, path) ==> SoundPath(heap, ancestors + path)
  }

  /** Some continuation of the path through `node` ends in this fault. */
  ghost predicate UnsoundBelow(heap: Heap, ancestors: seq<Id>, node: Id, error: Unresolvable) {
    exists path :: IsPathFrom(heap, node, path) && Fault(heap, ancestors + path, error)
  }

  lemma FaultIsUnsound(heap: Heap, path: seq<Id>, error: Unresolvable)
    requires path != [] && Fault(heap, path, error)
    ensures !SoundPath(heap, path)
  {
    if error.ContainsItself? {
      var i :| 0 <= i < |path| - 1 && path[i] == path[|path| - 1];
    } else if error.NoProvider? {
      var list := heap(path[|path| - 1]).configs.list;
      var i :| 0 <= i < |list| && list[i] == None;
    }
  }

  lemma Refuse(heap: Heap, ancestors: seq<Id>, node: Id, error: Unresolvable)
    requires NodeFault(heap, ancestors, node, error)
    ensures UnsoundBelow(heap, ancestors, node, error)
  {
    assert (ancestors + [node])[..|ancestors|] == ancestors && (ancestors + [node])[|ancestors|] == node;
    assert IsPathFrom(heap, node, [node]);
    hide NodeFault;
  }

  lemma NoRepeatsGrows(ancestors: seq<Id>, node: Id)
    requires NoRepeats(ancestors) && node !in ancestors
    ensures NoRepeats(ancestors + [node])
  {}

  lemma LeafCollected(leaves: seq<Id>, seen: set<Id>, heap: Heap, node: Id)
    requires SameLeaves(leaves, seen) && IsLeaf(heap, node)
    requires forall n :: Reachable(heap, node, n) <==> n == node
    ensures node in seen ==> LeavesOf(leaves, leaves, heap, node) && leaves != []
    ensures node !in seen ==>
              SameLeaves(leaves + [node], seen + {node}) && LeavesOf(leaves + [node], leaves, heap, node)
  {
    hide Reachable;
  }

  lemma SeenLeaf(leaves: seq<Id>, seen: set<Id>, node: Id)
    requires SameLeaves(leaves, seen)
    ensures node in seen <==> node in leaves
  {}

  lemma MetBelow(heap: Heap, node: Id, fuel: nat)
    requires heap(node).configs.Entries?
    ensures Met(heap, node, fuel + 1) == MetThrough(heap, heap(node).configs.list, fuel)
  {}

  lemma NoLeavesYet(leaves: seq<Id>, heap: Heap)
    ensures LeavesThrough(leaves, leaves, heap, [])
  {}

  lemma LeavesGrow(now: seq<Id>, mid: seq<Id>, before: seq<Id>, heap: Heap, list: seq<Entry>, i: nat)
    requires i < |list| && list[i].Some?
    requires LeavesThrough(mid, before, heap, list[..i]) && LeavesOf(now, mid, heap, list[i].value)
    ensures LeavesThrough(now, before, heap, list[..i + 1])
  {
    hide Reachable, IsLeaf;
    forall n
      ensures ReachableFromSome(heap, list[..i + 1], n)
         <==> ReachableFromSome(heap, list[..i], n) || Reachable(heap, list[i].value, n)
    {
      assert forall k :: 0 <= k < i ==> list[..i + 1][k] == list[..i][k];
      assert list[..i + 1][i] == list[i];
    }
  }

  lemma Behead(heap: Heap, path: seq<Id>)
    requires IsPath(heap, path) && |path| > 1
    ensures IsPathFrom(heap, path[1], path[1..]) && IsChild(heap, path[0], path[1])
  {
    var rest := path[1..];
    assert IsChild(heap, path[1 - 1], path[1]);
    forall i | 0 < i < |rest| ensures IsChild(heap, rest[i - 1], rest[i]) {
      assert IsChild(heap, path[i + 1 - 1], path[i + 1]);
    }
  }

  lemma ExtendPath(heap: Heap, ancestors: seq<Id>, node: Id, k: nat)
    requires IsPath(heap, ancestors + [node]) && heap(node).configs.Entries?
    requires k < |heap(node).configs.list| && heap(node).configs.list[k].Some?
    ensures var child := heap(node).configs.list[k].value;
            IsChild(heap, node, child) && IsPath(heap, ancestors + [node] + [child])
  {
    var child := heap(node).configs.list[k].value;
    var path, longer := ancestors + [node], ancestors + [node] + [child];
    assert heap(node).configs.list[k] in heap(node).configs.list;
    forall i | 0 < i < |longer| ensures IsChild(heap, longer[i - 1], longer[i]) {
      if i < |path| { assert IsChild(heap, path[i - 1], path[i]); }
    }
  }

  lemma RefuseBelow(heap: Heap, ancestors: seq<Id>, node: Id, child: Id, error: Unresolvable)
    requires IsChild(heap, node, child) && UnsoundBelow(heap, ancestors + [node], child, error)
    ensures UnsoundBelow(heap, ancestors, node, error)
  {
    hide Fault;
    var path :| IsPathFrom(heap, child, path) && Fault(heap, ancestors + [node] + path, error);
    assert ancestors + [node] + path == ancestors + ([node] + path);
    assert IsPathFrom(heap, node, [node] + path);
  }

  lemma LeafBelow(heap: Heap, ancestors: seq<Id>, node: Id)
    requires IsLeaf(heap, node) && WellFormedProvider(heap(node))
    requires NoRepeats(ancestors + [node]) && |ancestors| <= MAX_PROVIDER_NESTING
    ensures SoundBelow(heap, ancestors, node)
    ensures forall n :: Reachable(heap, node, n) <==> n == node
  {
    forall path | IsPathFrom(heap, node, path) ensures path == [node] {
      if |path| > 1 { Behead(heap, path); }
    }
    assert (ancestors + [node])[|ancestors|] == node;
  }

  lemma InnerBelow(heap: Heap, ancestors: seq<Id>, node: Id)
    requires heap(node).configs.Entries? && heap(node).configs.list != []
    requires NoRepeats(ancestors + [node]) && |ancestors| <= MAX_PROVIDER_NESTING
    requires forall k :: 0 <= k < |heap(node).configs.list| ==>
               heap(node).configs.list[k].Some? && SoundBelow(heap, ancestors + [node], heap(node).configs.list[k].value)
    ensures SoundBelow(heap, ancestors, node)
  {
    var list := heap(node).configs.list;
    forall path | IsPathFrom(heap, node, path) ensures SoundPath(heap, ancestors + path) {
      if |path| > 1 {
        Behead(heap, path);
        var k :| 0 <= k < |list| && list[k] == Some(path[1]);
        assert SoundBelow(heap, ancestors + [node], list[k].value);
        assert ancestors + [node] + path[1..] == ancestors + path;
      } else {
        assert path == [node];
        assert (ancestors + [node])[|ancestors|] == node;
      }
    }
  }

  lemma LeavesBelow(now: seq<Id>, before: seq<Id>, heap: Heap, node: Id)
    requires heap(node).configs.Entries?
    requires forall k :: 0 <= k < |heap(node).configs.list| ==> heap(node).configs.list[k].Some?
    requires LeavesThrough(now, before, heap, heap(node).configs.list)
    ensures LeavesOf(now, before, heap, node)
  {
    hide Reachable, ReachableFromSome;
    forall n | IsLeaf(heap, n)
      ensures Reachable(heap, node, n) <==> ReachableFromSome(heap, heap(node).configs.list, n)
    {
      ReachThroughChild(heap, node, n);
    }
  }

  lemma ReachThroughChild(heap: Heap, node: Id, n: Id)
    requires heap(node).configs.Entries? && IsLeaf(heap, n)
    requires forall k :: 0 <= k < |heap(node).configs.list| ==> heap(node).configs.list[k].Some?
    ensures Reachable(heap, node, n) <==> ReachableFromSome(heap, heap(node).configs.list, n)
  {
    var list := heap(node).configs.list;
    if Reachable(heap, node, n) {
      var path :| IsPathFrom(heap, node, path) && path[|path| - 1] == n;
      Behead(heap, path);
      var k :| 0 <= k < |list| && list[k] == Some(path[1]);
      assert path[1..][|path[1..]| - 1] == n;
      assert Reachable(heap, list[k].value, n);
    }
    if ReachableFromSome(heap, list, n) {
      var k :| 0 <= k < |list| && list[k].Some? && Reachable(heap, list[k].value, n);
      var path :| IsPathFrom(heap, list[k].value, path) && path[|path| - 1] == n;
      assert list[k] in list;
      assert ([node] + path)[|[node] + path| - 1] == n;
    }
  }

  /** lines 76-104: on every heap, cyclic ones included */
  method EndpointsOf(heap: Heap, source: Id) returns (r: Result<seq<Id>, Unresolvable>)
    ensures r.Success? <==> Resolvable(heap, source)
    ensures r.Success? ==> r.value == Endpoints(heap, source) && r.value != [] && NoRepeats(r.value)
    ensures r.Success? ==> forall n :: n in r.value <==> IsLeaf(heap, n) && Reachable(heap, source, n)
    ensures r.Failure? ==> exists path :: IsPathFrom(heap, source, path) && Fault(heap, path, r.error)
  {
    var walker := new Walker();
    assert [] + [source] == [source];
    var done := walker.Walk(heap, source, []);
    assert forall path: seq<Id> :: [] + path == path;
    if done.Failure? {
      ghost var path :| IsPathFrom(heap, source, path) && Fault(heap, [] + path, done.error);
      FaultIsUnsound(heap, path, done.error);
      return Failure(done.error);
    }
    return Success(walker.leaves);
  }

  // ---- the genesis check ----

  /** What reading block 0 of an endpoint gives; `Unreadable` covers errors and timeouts. */
  datatype Answer = Unreadable | NoBlock | NoHash | Hash(text: jstring)

  datatype WrongNetwork =
    | CannotResolve(why: Unresolvable)
    | CannotRead | NoGenesisHash | OtherGenesis(actual: jstring)
    | Endpoint(index: nat, reason: WrongNetwork)

  /** The endpoint itself reports the expected genesis. */
  predicate Reports(answer: Answer, expected: jstring) {
    answer.Hash? && answer.text != [] && Lower(answer.text) == expected
  }

  /** lines 119-144 */
  function AssertOneGenesis(answer: Answer, expected: jstring): (r: Result<(), WrongNetwork>)
    ensures r.Success? <==> Reports(answer, expected)
    ensures r == Failure(CannotRead) <==> answer == Unreadable
    ensures r == Failure(NoGenesisHash) <==> answer == NoBlock || answer == NoHash || answer == Hash([])
    ensures r.Failure? && r != Failure(CannotRead) && r != Failure(NoGenesisHash) ==>
              answer.Hash? && r == Failure(OtherGenesis(Lower(answer.text)))
  {
    match answer
    case Unreadable => Failure(CannotRead)
    case NoBlock => Failure(NoGenesisHash)
    case NoHash => Failure(NoGenesisHash)
    case Hash(text) =>
      var actual := Lower(text);
      if actual == [] then Failure(NoGenesisHash)
      else if actual != expected then Failure(OtherGenesis(actual))
      else Success(())
  }

  // ---- the expected genesis ----

  /** The caller's `expectedGenesisHash`. */
  datatype Expectation = NotGiven | NoCheck | Given(text: jstring)

  predicate IsHashUnit(c: unit) { IsDecimalDigit(c) || 'a' as int <= c <= 'f' as int }

  /** A 32-byte hash in lower-case hex. */
  predicate IsHash(s: jstring) {
    |s| == 66 && s[..2] == Of("0x") && forall i :: 2 <= i < |s| ==> IsHashUnit(s[i])
  }

  /** lines 42-53: `None` means no check, a failure an invalid argument */
  function ResolveExpectedGenesis(given: Expectation, book: jstring): (r: Result<Option<jstring>, ()>)
    requires IsHash(book)
    ensures r.Success? && r.value.Some? ==> IsHash(r.value.value)
    ensures r == Success(None) <==> given == NoCheck
    ensures given == NotGiven ==> r == Success(Some(book))
    ensures r.Success? && given.Given? ==> r == Success(Some(Lower(given.text)))
    ensures r.Failure? <==> given.Given? && !IsHash(Lower(given.text))
  {
    match given
    case NoCheck => Success(None)
    case NotGiven => Success(Some(book))
    case Given(text) =>
      var v := Lower(text);
      if IsHash(v) then Success(Some(v)) else Failure(())
  }

  lemma LowerTwice(s: jstring)
    ensures Lower(Lower(s)) == Lower(s)
  {
    assert forall i :: 0 <= i < |s| ==> LowerUnit(LowerUnit(s[i])) == LowerUnit(s[i]);
  }

  /** Neither side's letter case matters: an endpoint passes iff it spells the given hash. */
  lemma CaseDoesNotMatter(given: jstring, spelled: jstring, book: jstring)
    requires IsHash(book) && IsHash(Lower(given))
    ensures var expected := ResolveExpectedGenesis(Given(given), book).value.value;
            && (Reports(Hash(spelled), expected) <==> Lower(spelled) == Lower(given))
            && ResolveExpectedGenesis(Given(expected), book) == ResolveExpectedGenesis(Given(given), book)
  {
    LowerTwice(given);
  }

  /** What each refusal says; of several endpoints it names the first that does not report the hash. */
  ghost predicate Refusal(heap: Heap, source: Id, answers: Id -> Answer, expected: jstring, error: WrongNetwork) {
    var endpoints := Endpoints(heap, source);
    match error
    case CannotResolve(why) => exists path :: IsPathFrom(heap, source, path) && Fault(heap, path, why)
    case Endpoint(i, reason) =>
      && |endpoints| > 1 && i < |endpoints|
      && AssertOneGenesis(answers(endpoints[i]), expected) == Failure(reason)
      && forall k :: 0 <= k < i ==> Reports(answers(endpoints[k]), expected)
    case _ => |endpoints| == 1 && AssertOneGenesis(answers(endpoints[0]), expected) == Failure(error)
  }

  /**
   * lines 154-175: resolves exactly when the graph does and every leaf reports the
   * expected hash itself; with several leaves the error names the first bad one.
   */
  method AssertGenesis(heap: Heap, source: Id, answers: Id -> Answer, expected: jstring)
    returns (r: Result<(), WrongNetwork>)
    ensures r.Success? <==>
              && Resolvable(heap, source)
              && forall n :: IsLeaf(heap, n) && Reachable(heap, source, n) ==> Reports(answers(n), expected)
    ensures r.Failure? ==> Refusal(heap, source, answers, expected, r.error)
  {
    hide Endpoints;
    var endpoints := EndpointsOf(heap, source);
    if endpoints.Failure? {
      return Failure(CannotResolve(endpoints.error));
    }
    var list := endpoints.value;
    if |list| == 1 {
      assert list == [list[0]];
      return AssertOneGenesis(answers(list[0]), expected);
    }
    for i := 0 to |list|
      invariant forall k :: 0 <= k < i ==> Reports(answers(list[k]), expected)
    {
      var one := AssertOneGenesis(answers(list[i]), expected);
      if one.Failure? {
        assert list[i] in list;
        return Failure(Endpoint(i, one.error));
      }
    }
    return Success(());
  }
}

/**
 * src/client/CitrateClient.ts: how a batch of inference calls is accounted for.
 * The calls of one batch settle in an order the runtime picks.
 */
module BatchInference {
  import opened Wrappers
  import opened Text

  /** What one `inference` call gives: a result with its costs, or the text of an error. */
  datatype Outcome = Done(output: string, gasUsed: nat, executionTime: int) | Threw(message: string)

  /** An error as reported: `written` is the number given for the input. */
  datatype Labelled = Labelled(written: real, message: string)

  datatype Report = Report(
    results: seq<Outcome>, totalGasUsed: nat, totalExecutionTime: int,
    successCount: nat, failureCount: nat, errors: seq<Labelled>)

  datatype Problem = NoModelId | BadModelId | NoInput | InputTooLarge | BadBatchSize

  datatype Refusal = NoKeyManager | NoRecipient | Invalid(input: nat, problem: Problem)

  /**
   * An input is `None` if it is falsy, otherwise the length of its JSON text. The batch
   * size is any number, whole or not; 0 stands for none.
   */
  datatype Request = Request(
    modelId: jstring, inputs: seq<Option<nat>>, batchSize: real, encrypted: bool, recipient: Option<jstring>)

  function Range(n: nat): seq<nat> { seq(n, i => i) }

  function Min(a: nat, b: nat): nat { if a < b then a else b }

  function EffectiveBatchSize(request: Request): real { if request.batchSize == 0.0 then 10.0 else request.batchSize }

  predicate CanKeepSecret(request: Request, hasKeyManager: bool) {
    request.encrypted ==> hasKeyManager && request.recipient.Some? && request.recipient.value != []
  }

  // ---- src/utils/validation.ts lines 162-191, as a batch uses it ----

  const MAX_INPUT_SIZE: nat := 10 * 1024 * 1024
  const MAX_BATCH_SIZE: real := 100.0

  predicate IsBatchSize(size: real) { size == 0.0 || 1.0 <= size <= MAX_BATCH_SIZE }

  predicate IsModelIdUnit(c: unit) {
    IsDecimalDigit(c) || 'a' as int <= c <= 'z' as int || 'A' as int <= c <= 'Z' as int || c == '_' as int || c == '-' as int
  }

  /** Every input is sound: a model id of the allowed characters, an input of allowed size, an allowed batch size. */
  predicate AllValid(request: Request) {
    request.inputs != [] ==>
      && request.modelId != [] && (forall i :: 0 <= i < |request.modelId| ==> IsModelIdUnit(request.modelId[i]))
      && IsBatchSize(request.batchSize)
      && forall i :: 0 <= i < |request.inputs| ==> request.inputs[i].Some? && request.inputs[i].value <= MAX_INPUT_SIZE
  }

  function ValidateProbe(request: Request, input: Option<nat>): (problem: Option<Problem>)
    ensures problem == None <==>
              && request.modelId != [] && (forall i :: 0 <= i < |request.modelId| ==> IsModelIdUnit(request.modelId[i]))
              && IsBatchSize(request.batchSize)
              && input.Some? && input.value <= MAX_INPUT_SIZE
    ensures problem == Some(NoModelId) <==> forall i :: 0 <= i < |request.modelId| ==> IsSpace(request.modelId[i])
    ensures problem == Some(BadModelId) <==>
              && (exists i :: 0 <= i < |request.modelId| && !IsSpace(request.modelId[i]))
              && (exists i :: 0 <= i < |request.modelId| && !IsModelIdUnit(request.modelId[i]))
    ensures problem == Some(NoInput) ==> input.None?
    ensures problem == Some(InputTooLarge) ==> input.Some? && input.value > MAX_INPUT_SIZE
    ensures problem == Some(BadBatchSize) ==> input.Some? && !IsBatchSize(request.batchSize)
  {
    if forall i :: 0 <= i < |request.modelId| ==> IsSpace(request.modelId[i]) then
      assert request.modelId != [] ==> IsSpace(request.modelId[0]) && !IsModelIdUnit(request.modelId[0]);
      Some(NoModelId)
    else if exists i :: 0 <= i < |request.modelId| && !IsModelIdUnit(request.modelId[i]) then Some(BadModelId)
    else if input.None? then Some(NoInput)
    else if input.value > MAX_INPUT_SIZE then Some(InputTooLarge)
    else if request.batchSize != 0.0 && (request.batchSize < 1.0 || request.batchSize > MAX_BATCH_SIZE) then Some(BadBatchSize)
    else None
  }

  // ---- what the calls of some inputs, settled in that order, add up to ----

  datatype Tally = Tally(results: seq<Outcome>, errors: seq<Labelled>, gas: nat, time: int)

  const NOTHING := Tally([], [], 0, 0)

  /** One settled call: a result and its costs, or the labelled error. */
  function Count(t: Tally, written: real, o: Outcome): Tally {
    match o
    case Done(_, gasUsed, executionTime) =>
      t.(results := t.results + [o], gas := t.gas + gasUsed, time := t.time + executionTime)
    case Threw(message) => t.(errors := t.errors + [Labelled(written, message)])
  }

  /** `written` gives the number each input goes by in an error. */
  function Account(outcome: nat -> Outcome, written: nat -> real, order: seq<nat>): Tally {
    if order == [] then NOTHING
    else Count(Account(outcome, written, Init(order)), written(Last(order)), outcome(Last(order)))
  }

  function Init<T>(s: seq<T>): seq<T> requires s != [] { s[..|s| - 1] }

  function Last<T>(s: seq<T>): T requires s != [] { s[|s| - 1] }

  /** The same totals, and the same results and labelled errors up to their order. */
  ghost predicate Same(t: Tally, u: Tally) {
    && t.gas == u.gas && t.time == u.time
    && multiset(t.results) == multiset(u.results) && multiset(t.errors) == multiset(u.errors)
  }

  lemma CountLast(outcome: nat -> Outcome, written: nat -> real, order: seq<nat>, x: nat)
    ensures Account(outcome, written, order + [x]) == Count(Account(outcome, written, order), written(x), outcome(x))
  {
    assert Init(order + [x]) == order;
  }

  lemma CountSame(t: Tally, u: Tally, x: real, o: Outcome)
    requires Same(t, u)
    ensures Same(Count(t, x, o), Count(u, x, o))
  {}

  lemma Swapped<T>(s: seq<T>, a: T, b: T)
    ensures multiset(s + [a] + [b]) == multiset(s + [b] + [a])
  {}

  lemma CountCommutes(t: Tally, x: real, o: Outcome, y: real, p: Outcome)
    ensures Same(Count(Count(t, x, o), y, p), Count(Count(t, y, p), x, o))
  {
    match (o, p) {
      case (Done(_, _, _), Done(_, _, _)) => Swapped(t.results, o, p);
      case (Threw(m), Threw(n)) => Swapped(t.errors, Labelled(x, m), Labelled(y, n));
      case _ =>
    }
  }

  lemma {:induction false} MoveLast(outcome: nat -> Outcome, written: nat -> real, a: seq<nat>, x: nat, b: seq<nat>)
    ensures Same(Account(outcome, written, a + [x] + b), Account(outcome, written, a + b + [x]))
  {
    if b == [] {
      assert a + [x] + b == a + b + [x];
    } else {
      hide Account, Same, Count;
      var c, y := Init(b), Last(b);
      assert a + [x] + b == a + [x] + c + [y];
      assert a + b == a + c + [y];
      MoveLast(outcome, written, a, x, c);
      CountLast(outcome, written, a + [x] + c, y);
      CountLast(outcome, written, a + c, x);
      CountLast(outcome, written, a + c, y);
      CountLast(outcome, written, a + b, x);
      CountSame(Account(outcome, written, a + [x] + c), Account(outcome, written, a + c + [x]), written(y), outcome(y));
      CountCommutes(Account(outcome, written, a + c), written(x), outcome(x), written(y), outcome(y));
    }
  }

  lemma LastApart(a: seq<nat>)
    requires a != []
    ensures a == Init(a) + [Last(a)] && multiset(a) == multiset(Init(a)) + multiset{Last(a)}
  {
    assert a == Init(a) + [Last(a)];
  }

  lemma OneApart(b: seq<nat>, j: nat)
    requires j < |b|
    ensures b == b[..j] + [b[j]] + b[j + 1..]
    ensures multiset(b) == multiset(b[..j] + b[j + 1..]) + multiset{b[j]}
  {
    assert b == b[..j] + [b[j]] + b[j + 1..];
  }

  lemma CancelOne(m: multiset<nat>, n: multiset<nat>, x: nat)
    requires m + multiset{x} == n + multiset{x}
    ensures m == n
  {
    assert m == (m + multiset{x}) - multiset{x} && n == (n + multiset{x}) - multiset{x};
  }

  lemma Member(b: seq<nat>, x: nat) returns (j: nat)
    requires x in multiset(b)
    ensures j < |b| && b[j] == x
  {
    j :| j < |b| && b[j] == x;
  }

  /** The last element of one list, found in a list of the same elements. */
  lemma Pick(a: seq<nat>, b: seq<nat>) returns (front: seq<nat>, back: seq<nat>)
    requires a != [] && multiset(a) == multiset(b)
    ensures a == Init(a) + [Last(a)] && b == front + [Last(a)] + back
    ensures multiset(Init(a)) == multiset(front + back)
  {
    hide *;
    LastApart(a);
    var j := Member(b, Last(a));
    OneApart(b, j);
    front, back := b[..j], b[j + 1..];
    CancelOne(multiset(Init(a)), multiset(front + back), Last(a));
  }

  lemma SameLength<T>(a: seq<T>, b: seq<T>)
    requires multiset(a) == multiset(b)
    ensures |a| == |b|
  {
    assert |a| == |multiset(a)| && |b| == |multiset(b)|;
  }

  /** The account of a set of calls does not depend on the order in which they settle. */
  lemma {:induction false} OrderDoesNotMatter(outcome: nat -> Outcome, written: nat -> real, a: seq<nat>, b: seq<nat>)
    requires multiset(a) == multiset(b)
    ensures Same(Account(outcome, written, a), Account(outcome, written, b))
    decreases |a|
  {
    SameLength(a, b);
    if a != [] {
      hide Account, Same, Count;
      var x := Last(a);
      var front, back := Pick(a, b);
      OrderDoesNotMatter(outcome, written, Init(a), front + back);
      CountLast(outcome, written, Init(a), x);
      CountLast(outcome, written, front + back, x);
      CountSame(Account(outcome, written, Init(a)), Account(outcome, written, front + back), written(x), outcome(x));
      MoveLast(outcome, written, front, x, back);
    } else {
      assert a == b;
    }
  }

  lemma {:induction false} EveryInputOnce(outcome: nat -> Outcome, written: nat -> real, order: seq<nat>)
    ensures |Account(outcome, written, order).results| + |Account(outcome, written, order).errors| == |order|
  {
    if order != [] { EveryInputOnce(outcome, written, Init(order)); }
  }

  function Shift(s: seq<nat>, i: nat): seq<nat> { seq(|s|, j requires 0 <= j < |s| => i + s[j]) }

  lemma {:induction false} Shifted(a: seq<nat>, b: seq<nat>, i: nat)
    requires multiset(a) == multiset(b)
    ensures multiset(Shift(a, i)) == multiset(Shift(b, i))
    decreases |a|
  {
    SameLength(a, b);
    if a != [] {
      var x := Last(a);
      var front, back := Pick(a, b);
      Shifted(Init(a), front + back, i);
      assert Shift(a, i) == Shift(Init(a), i) + [i + x];
      assert Shift(b, i) == Shift(front, i) + [i + x] + Shift(back, i);
      assert Shift(front + back, i) == Shift(front, i) + Shift(back, i);
    } else {
      assert a == b;
    }
  }

  /** Settling a whole batch after all earlier inputs settles all inputs up to its end. */
  lemma BatchSettled(order: seq<nat>, i: nat, settles: seq<nat>)
    requires multiset(order) == multiset(Range(i)) && multiset(settles) == multiset(Range(|settles|))
    ensures multiset(order + Shift(settles, i)) == multiset(Range(i + |settles|))
  {
    Shifted(settles, Range(|settles|), i);
    assert Range(i + |settles|) == Range(i) + Shift(Range(|settles|), i);
  }

  ghost predicate Reports(r: Report, t: Tally) {
    && Same(Tally(r.results, r.errors, r.totalGasUsed, r.totalExecutionTime), t)
    && r.successCount == |r.results| && r.failureCount == |r.errors|
  }

  ghost predicate Permutation(s: seq<nat>, n: nat) { multiset(s) == multiset(Range(n)) && |s| == n }

  // ---- what that is, input by input ----

  function GasOf(o: Outcome): nat { match o case Done(_, gasUsed, _) => gasUsed case Threw(_) => 0 }

  function TimeOf(o: Outcome): int { match o case Done(_, _, executionTime) => executionTime case Threw(_) => 0 }

  /** The sum of `f` over the inputs below `n`. */
  function Sum(f: nat -> int, n: nat): int { if n == 0 then 0 else Sum(f, n - 1) + f(n - 1) }

  /** The inputs below `n` that `p` holds of, in order. */
  function Selected(p: nat -> bool, n: nat): seq<nat> {
    if n == 0 then [] else Selected(p, n - 1) + (if p(n - 1) then [n - 1] else [])
  }

  lemma {:induction false} SelectedLaw(p: nat -> bool, n: nat)
    ensures forall i: nat :: i in Selected(p, n) <==> i < n && p(i)
    ensures NoRepeats(Selected(p, n))
  {
    if n > 0 {
      SelectedLaw(p, n - 1);
      var before := Selected(p, n - 1);
      forall k | 0 <= k < |before| ensures before[k] < n - 1 { assert before[k] in before; }
    }
  }

  /** The inputs whose call gave a result, and those whose call threw. */
  function DoneInputs(outcome: nat -> Outcome, n: nat): seq<nat> { Selected((i: nat) => outcome(i).Done?, n) }

  function ThrownInputs(outcome: nat -> Outcome, n: nat): seq<nat> { Selected((i: nat) => outcome(i).Threw?, n) }

  lemma {:induction false} Counts(p: nat -> bool, q: nat -> bool, n: nat)
    requires forall i: nat :: p(i) != q(i)
    ensures |Selected(p, n)| + |Selected(q, n)| == n
  {
    if n > 0 { Counts(p, q, n - 1); }
  }

  /** Every input is in exactly one of the two lists, once. */
  lemma InputsApart(outcome: nat -> Outcome, n: nat)
    ensures forall i: nat :: i in DoneInputs(outcome, n) <==> i < n && outcome(i).Done?
    ensures forall i: nat :: i in ThrownInputs(outcome, n) <==> i < n && outcome(i).Threw?
    ensures |DoneInputs(outcome, n)| + |ThrownInputs(outcome, n)| == n
    ensures NoRepeats(DoneInputs(outcome, n)) && NoRepeats(ThrownInputs(outcome, n))
  {
    var p, q := (i: nat) => outcome(i).Done?, (i: nat) => outcome(i).Threw?;
    hide Selected, NoRepeats;
    SelectedLaw(p, n);
    SelectedLaw(q, n);
    Counts(p, q, n);
  }

  function OutcomesAt(outcome: nat -> Outcome, inputs: seq<nat>): (r: seq<Outcome>)
    ensures |r| == |inputs| && forall k :: 0 <= k < |r| ==> r[k] == outcome(inputs[k])
  {
    seq(|inputs|, k requires 0 <= k < |inputs| => outcome(inputs[k]))
  }

  function MessageOf(o: Outcome): string { match o case Done(_, _, _) => "" case Threw(message) => message }

  /** The errors of inputs that threw, each under its number with its own message. */
  function ErrorsAt(outcome: nat -> Outcome, written: nat -> real, inputs: seq<nat>): (r: seq<Labelled>)
    ensures |r| == |inputs|
    ensures forall k :: 0 <= k < |r| ==> r[k] == Labelled(written(inputs[k]), MessageOf(outcome(inputs[k])))
  {
    seq(|inputs|, k requires 0 <= k < |inputs| => Labelled(written(inputs[k]), MessageOf(outcome(inputs[k]))))
  }

  /** A report of the first `n` inputs: sums, results and errors over them, in whatever order the calls settled. */
  ghost predicate ReportsInputs(r: Report, outcome: nat -> Outcome, written: nat -> real, n: nat) {
    && r.totalGasUsed == Sum((i: nat) => GasOf(outcome(i)), n)
    && r.totalExecutionTime == Sum((i: nat) => TimeOf(outcome(i)), n)
    && multiset(r.results) == multiset(OutcomesAt(outcome, DoneInputs(outcome, n)))
    && multiset(r.errors) == multiset(ErrorsAt(outcome, written, ThrownInputs(outcome, n)))
    && r.successCount == |DoneInputs(outcome, n)| && r.failureCount == |ThrownInputs(outcome, n)|
  }

  lemma {:induction false} AccountIs(outcome: nat -> Outcome, written: nat -> real, n: nat)
    ensures var t := Account(outcome, written, Range(n));
            && t.gas == Sum((i: nat) => GasOf(outcome(i)), n)
            && t.time == Sum((i: nat) => TimeOf(outcome(i)), n)
            && t.results == OutcomesAt(outcome, DoneInputs(outcome, n))
            && t.errors == ErrorsAt(outcome, written, ThrownInputs(outcome, n))
  {
    if n > 0 {
      AccountIs(outcome, written, n - 1);
      RangeNext(n);
      CountLast(outcome, written, Range(n - 1), n - 1);
      OneMoreInput(outcome, written, n - 1);
      hide Account, Range, OutcomesAt, ErrorsAt, DoneInputs, ThrownInputs;
    }
  }

  lemma RangeNext(n: nat)
    requires n > 0
    ensures Range(n) == Range(n - 1) + [n - 1]
  {}

  lemma OneMoreInput(outcome: nat -> Outcome, written: nat -> real, i: nat)
    ensures OutcomesAt(outcome, DoneInputs(outcome, i + 1))
         == OutcomesAt(outcome, DoneInputs(outcome, i)) + (if outcome(i).Done? then [outcome(i)] else [])
    ensures ErrorsAt(outcome, written, ThrownInputs(outcome, i + 1))
         == ErrorsAt(outcome, written, ThrownInputs(outcome, i))
          + (if outcome(i).Threw? then [Labelled(written(i), MessageOf(outcome(i)))] else [])
  {
    hide OutcomesAt, ErrorsAt;
  }

  lemma ReportIs(r: Report, outcome: nat -> Outcome, written: nat -> real, n: nat)
    requires Reports(r, Account(outcome, written, Range(n)))
    ensures ReportsInputs(r, outcome, written, n)
  {
    AccountIs(outcome, written, n);
    SameLength(r.results, Account(outcome, written, Range(n)).results);
    SameLength(r.errors, Account(outcome, written, Range(n)).errors);
    hide Account, DoneInputs, ThrownInputs, Sum, Range;
  }

  // ---- the numbers written for inputs ----

  /** Input `p` in the batches that start at `i` and every `size` further on. */
  function LabelFrom(size: real, i: real, p: nat): real
    requires size >= 1.0
    decreases p - i.Floor
  {
    if p < (i + size).Floor then i + (p - i.Floor) as real else LabelFrom(size, i + size, p)
  }

  /** What the code writes for input `p`: the batch's start plus the index in the batch. */
  function LabelOf(size: real, p: nat): real {
    if size >= 1.0 then LabelFrom(size, 0.0, p) else p as real
  }

  function Labels(size: real): nat -> real { (p: nat) => LabelOf(size, p) }

  predicate IsWhole(size: real) { size.Floor as real == size }

  lemma WholeSum(a: real, b: real)
    requires IsWhole(a) && IsWhole(b)
    ensures IsWhole(a + b) && (a + b).Floor == a.Floor + b.Floor && a.Floor as real == a
  {
    assert a + b == (a.Floor + b.Floor) as real;
  }

  lemma {:induction false} WholeLabels(size: real, i: real, p: nat)
    requires size >= 1.0 && IsWhole(size) && IsWhole(i)
    ensures LabelFrom(size, i, p) == p as real
    decreases p - i.Floor
  {
    hide IsWhole;
    WholeSum(i, size);
    if p >= (i + size).Floor {
      WholeLabels(size, i + size, p);
    }
  }

  /** Every error names its input exactly when the batch size is whole, or all inputs fit in one batch. */
  lemma LabelsNameInputsIff(size: real, n: nat)
    requires size >= 1.0
    ensures (forall p: nat :: p < n ==> LabelOf(size, p) == p as real) <==> IsWhole(size) || n as real <= size
  {
    if IsWhole(size) {
      forall p: nat | p < n ensures LabelOf(size, p) == p as real {
        WholeLabels(size, 0.0, p);
      }
    } else if n as real > size {
      assert LabelFrom(size, 0.0, size.Floor) == LabelFrom(size, size, size.Floor) == size;
      assert LabelOf(size, size.Floor) != size.Floor as real;
    }
  }

  /** Size 1.5: the second batch starts at 1.5, and so the second input is called "Input 1.5". */
  lemma WrongLabel()
    ensures IsBatchSize(1.5) && LabelOf(1.5, 1) == 1.5
  {
    assert LabelFrom(1.5, 0.0, 1) == LabelFrom(1.5, 1.5, 1);
  }

  // ---- the batches ----

  lemma NextSettled(outcome: nat -> Outcome, written: nat -> real, order: seq<nat>, batch: seq<nat>, i: nat, j: nat)
    requires j < |batch|
    ensures Account(outcome, written, order + Shift(batch[..j + 1], i))
         == Count(Account(outcome, written, order + Shift(batch[..j], i)), written(i + batch[j]), outcome(i + batch[j]))
  {
    assert order + Shift(batch[..j + 1], i) == order + Shift(batch[..j], i) + [i + batch[j]];
    CountLast(outcome, written, order + Shift(batch[..j], i), i + batch[j]);
  }

  /** lines 495-503: what one call does to the totals and lists when it settles */
  method CountOutcome(t: Tally, written: real, o: Outcome) returns (after: Tally)
    ensures after == Count(t, written, o)
  {
    match o {
      case Done(output, gasUsed, executionTime) =>
        after := t.(results := t.results + [o], gas := t.gas + gasUsed, time := t.time + executionTime);
      case Threw(message) =>
        after := t.(errors := t.errors + [Labelled(written, message)]);
    }
  }

  /**
   * lines 478-513: the calls of the batch whose slice starts at input `from`, the whole part of
   * `i`, settle in the order `batch`.
   */
  method RunBatch(
    outcome: nat -> Outcome, i: real, from: nat, batch: seq<nat>, before: Tally,
    ghost written: nat -> real, ghost order: seq<nat>)
    returns (after: Tally)
    requires before == Account(outcome, written, order)
    requires forall j :: 0 <= j < |batch| ==> written(from + batch[j]) == i + batch[j] as real
    ensures after == Account(outcome, written, order + Shift(batch, from))
  {
    hide *;
    after := before;
    Ends(order, batch, from);
    for j := 0 to |batch|
      invariant after == Account(outcome, written, order + Shift(batch[..j], from))
    {
      var index := batch[j];
      NextSettled(outcome, written, order, batch, from, j);
      after := CountOutcome(after, i + index as real, outcome(from + index));
    }
  }

  lemma Ends(order: seq<nat>, batch: seq<nat>, i: nat)
    ensures order + Shift(batch[..0], i) == order && batch[..|batch|] == batch
  {}

  lemma InRange(s: seq<nat>, n: nat)
    requires Permutation(s, n)
    ensures forall j :: 0 <= j < |s| ==> s[j] < n
  {
    forall j | 0 <= j < |s| ensures s[j] < n {
      assert s[j] in multiset(s);
      assert s[j] in Range(n);
    }
  }

  /** The first `k` inputs have been called in order, and have settled in some order. */
  ghost predicate Settled(outcome: nat -> Outcome, written: nat -> real, order: seq<nat>, k: nat, t: Tally, calls: seq<nat>) {
    multiset(order) == multiset(Range(k)) && calls == Range(k) && t == Account(outcome, written, order)
  }

  /** lines 479-513: the slice of the inputs from `from` to before `to`, which starts at `i` */
  method NextBatch(
    outcome: nat -> Outcome, i: real, from: nat, to: nat, batch: seq<nat>, before: Tally, called: seq<nat>,
    ghost written: nat -> real, ghost order: seq<nat>)
    returns (after: Tally, calls: seq<nat>, ghost longer: seq<nat>)
    requires from <= to && Permutation(batch, to - from) && Settled(outcome, written, order, from, before, called)
    requires forall p: nat :: from <= p < to ==> written(p) == i + (p - from) as real
    ensures Settled(outcome, written, longer, to, after, calls) && calls == Range(to)
  {
    hide Account, Shift, Range, Permutation;
    PermutationIs(batch, to - from);
    InRange(batch, to - from);
    RangeGrows(from, to - from);
    BatchSettled(order, from, batch);
    calls := called + seq(to - from, j => from + j);
    after := RunBatch(outcome, i, from, batch, before, written, order);
    longer := order + Shift(batch, from);
    assert calls == Range(to);
  }

  /** From the batch at `i` on, the numbers are those of the batches from there. */
  ghost predicate LabelsFrom(size: real, i: real)
    requires size >= 1.0
  {
    forall p: nat :: p >= i.Floor ==> LabelOf(size, p) == LabelFrom(size, i, p)
  }

  lemma NextStart(size: real, i: real)
    requires size >= 1.0 && LabelsFrom(size, i)
    ensures (i + size).Floor > i.Floor && LabelsFrom(size, i + size)
    ensures forall p: nat :: i.Floor <= p < (i + size).Floor ==> LabelOf(size, p) == i + (p - i.Floor) as real
  {}

  /** lines 478-519 */
  method RunBatches(n: nat, batchSize: real, outcome: nat -> Outcome, settles: (nat, nat) -> seq<nat>)
    returns (t: Tally, calls: seq<nat>)
    requires (n > 0 ==> batchSize >= 1.0) && forall i, k :: Permutation(settles(i, k), k)
    ensures calls == Range(n)
    ensures Same(t, Account(outcome, Labels(batchSize), Range(n)))
    ensures |t.results| + |t.errors| == n
  {
    NothingSettled(outcome, Labels(batchSize));
    hide Settled, Permutation, LabelOf, Account, Same;
    t, calls := NOTHING, [];
    ghost var order: seq<nat> := [];
    var i := 0.0;
    assert n > 0 ==> LabelsFrom(batchSize, i) by { FirstStart(batchSize); }
    while i < n as real
      invariant i >= 0.0
      invariant Settled(outcome, Labels(batchSize), order, Min(i.Floor, n), t, calls)
      invariant n > 0 ==> LabelsFrom(batchSize, i)
      decreases n - i.Floor
    {
      NextStart(batchSize, i);
      var from, to := i.Floor, Min((i + batchSize).Floor, n);
      t, calls, order := NextBatch(outcome, i, from, to, settles(from, to - from), t, calls, Labels(batchSize), order);
      i := i + batchSize;
    }
    AllSettled(outcome, Labels(batchSize), order, n, t, calls);
  }

  lemma FirstStart(size: real)
    ensures size >= 1.0 ==> LabelsFrom(size, 0.0)
  {}

  lemma PermutationIs(s: seq<nat>, n: nat)
    requires Permutation(s, n)
    ensures |s| == n && multiset(s) == multiset(Range(n))
  {}

  lemma AllSettled(
    outcome: nat -> Outcome, written: nat -> real, order: seq<nat>, n: nat, t: Tally, calls: seq<nat>)
    requires Settled(outcome, written, order, n, t, calls)
    ensures calls == Range(n) && Same(t, Account(outcome, written, Range(n))) && |t.results| + |t.errors| == n
  {
    OrderDoesNotMatter(outcome, written, order, Range(n));
    hide Account;
    SameCounts(t, Account(outcome, written, Range(n)));
    EveryInputOnce(outcome, written, Range(n));
  }

  lemma RangeGrows(i: nat, size: nat)
    ensures Range(i) + seq(size, j => i + j) == Range(i + size)
  {}

  lemma NothingSettled(outcome: nat -> Outcome, written: nat -> real)
    ensures Settled(outcome, written, [], 0, NOTHING, [])
  {}

  /**
   * lines 435-529. `settles(i, k)` is the order in which the `k` calls of the batch that
   * starts at input `i` settle. `calls` lists the inputs handed to `inference`.
   */
  method Run(request: Request, hasKeyManager: bool, outcome: nat -> Outcome, settles: (nat, nat) -> seq<nat>)
    returns (r: Result<Report, Refusal>, calls: seq<nat>)
    requires forall i, k :: Permutation(settles(i, k), k)
    ensures r.Success? <==> CanKeepSecret(request, hasKeyManager) && AllValid(request)
    ensures r == Failure(NoKeyManager) <==> request.encrypted && !hasKeyManager
    ensures r == Failure(NoRecipient) <==> hasKeyManager && !CanKeepSecret(request, hasKeyManager)
    ensures r.Failure? ==> calls == []
    ensures r.Failure? && r.error.Invalid? ==>
              var i := r.error.input;
              && i < |request.inputs| && ValidateProbe(request, request.inputs[i]) == Some(r.error.problem)
              && forall k :: 0 <= k < i ==> ValidateProbe(request, request.inputs[k]) == None
    ensures r.Success? ==> calls == Range(|request.inputs|)
    ensures r.Success? ==>
              ReportsInputs(r.value, outcome, Labels(EffectiveBatchSize(request)), |request.inputs|)
    ensures r.Success? ==> r.value.successCount + r.value.failureCount == |request.inputs|
  {
    hide ReportsInputs, Range, Same, Account, LabelOf, Permutation;
    if request.encrypted {
      if !hasKeyManager {
        return Failure(NoKeyManager), [];
      }
      if request.recipient.None? || request.recipient.value == [] {
        return Failure(NoRecipient), [];
      }
    }
    var n := |request.inputs|;
    for i := 0 to n
      invariant forall k :: 0 <= k < i ==> ValidateProbe(request, request.inputs[k]) == None
    {
      var problem := ValidateProbe(request, request.inputs[i]);
      if problem.Some? {
        return Failure(Invalid(i, problem.value)), [];
      }
    }
    assert n > 0 ==> ValidateProbe(request, request.inputs[0]) == None;
    var t;
    t, calls := RunBatches(n, EffectiveBatchSize(request), outcome, settles);
    var report := Report(t.results, t.gas, t.time, |t.results|, |t.errors|, t.errors);
    assert Reports(report, Account(outcome, Labels(EffectiveBatchSize(request)), Range(n)));
    ReportIs(report, outcome, Labels(EffectiveBatchSize(request)), n);
    return Success(report), calls;
  }

  lemma SameCounts(t: Tally, u: Tally)
    requires Same(t, u)
    ensures |t.results| == |u.results| && |t.errors| == |u.errors|
  {
    SameLength(t.results, u.results);
    SameLength(t.errors, u.errors);
  }
}

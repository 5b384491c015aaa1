/**
 * The network guard as concurrent callers use it: `verifyNetwork` of
 * src/client/CitrateClient.ts (lines 221-231, before the sends of lines 327-335
 * and 400-406) and of src/compute/refunds.ts (lines 128-190). Every stretch of
 * code between two awaits is one step; the scheduler picks the steps.
 */
module GuardProtocol {
  import opened Wrappers

  /**
   * A check: the promise stored in `networkCheck`. `Rejecting` is the time between
   * the assertion's failure and its catch handler, in which the field still holds it.
   */
  datatype Check = InFlight | Rejecting | Fulfilled | Rejected

  /** What a call wants: just the check, a client transaction, a contract view, or a claim. */
  datatype Kind = Verify | Send | View | Claim

  /** Where a call is; `check` is the promise it awaits, none when there is nothing to check. */
  datatype Pc =
    | Verifying(kind: Kind, check: Option<nat>)
    | Addressing                       // a claim awaiting the signer's address
    | VerifyingView(check: Option<nat>) // a claim's own view, verifying again
    | Viewing(claiming: bool)          // a contract view is under way
    | Succeeded | NothingOwed | Failed

  /** What the outside sees, in order. */
  datatype Effect = CheckSucceeded(check: nat) | ViewCalled(call: nat) | TransactionSent(call: nat)

  datatype Event =
    | Start(kind: Kind)
    | Settle(check: nat, ok: bool)     // the assertion's own promise settles
    | Catch(check: nat)                // its catch handler runs
    | Resume(call: nat)                // an await on a check continues
    | Address(call: nat, ok: bool)
    | Owed(call: nat, amount: Option<nat>) // the view answers, or fails

  datatype State = State(networkCheck: Option<nat>, checks: seq<Check>, calls: seq<Pc>, log: seq<Effect>)

  const INITIAL := State(None, [], [], [])

  // ---- the steps, as functions on states ----

  /** `verifyNetwork` up to its return: the state after, and the promise returned. */
  function Verified(s: State, expects: bool): (State, Option<nat>) {
    if !expects then (s, None)
    else if s.networkCheck.Some? then (s, s.networkCheck)
    else (s.(checks := s.checks + [InFlight], networkCheck := Some(|s.checks|)), Some(|s.checks|))
  }

  function Settled(s: State, k: nat, ok: bool): State
    requires k < |s.checks|
  {
    if ok then s.(checks := s.checks[k := Fulfilled], log := s.log + [CheckSucceeded(k)])
    else s.(checks := s.checks[k := Rejecting])
  }

  function Caught(s: State, k: nat): State
    requires k < |s.checks|
  {
    s.(checks := s.checks[k := Rejected], networkCheck := None)
  }

  /** The awaited promise has an outcome: `Some(true)` fulfilled, `Some(false)` rejected. */
  function Outcome(s: State, check: Option<nat>): Option<bool> {
    if check.None? then Some(true)
    else if check.value >= |s.checks| then None
    else if s.checks[check.value] == Fulfilled then Some(true)
    else if s.checks[check.value] == Rejected then Some(false)
    else None
  }

  function At(s: State, c: nat, pc: Pc): State
    requires c < |s.calls|
  {
    s.(calls := s.calls[c := pc])
  }

  /** What a call does as soon as its check has passed. */
  function Proceed(s: State, c: nat): State
    requires c < |s.calls|
  {
    match s.calls[c]
    case Verifying(Verify, _) => At(s, c, Succeeded)
    case Verifying(Send, _) => At(s, c, Succeeded).(log := s.log + [TransactionSent(c)])
    case Verifying(View, _) => At(s, c, Viewing(false)).(log := s.log + [ViewCalled(c)])
    case Verifying(Claim, _) => At(s, c, Addressing)
    case VerifyingView(_) => At(s, c, Viewing(true)).(log := s.log + [ViewCalled(c)])
    case _ => s
  }

  function Awaited(pc: Pc): Option<Option<nat>> {
    match pc
    case Verifying(_, check) => Some(check)
    case VerifyingView(check) => Some(check)
    case _ => None
  }

  /** The state after an event; none when the event cannot happen now. */
  function Step(s: State, e: Event, expects: bool): Option<State> {
    match e
    case Start(kind) =>
      var (t, check) := Verified(s, expects);
      Some(t.(calls := t.calls + [Verifying(kind, check)]))
    case Settle(k, ok) =>
      if k < |s.checks| && s.checks[k] == InFlight then Some(Settled(s, k, ok)) else None
    case Catch(k) =>
      if k < |s.checks| && s.checks[k] == Rejecting then Some(Caught(s, k)) else None
    case Resume(c) =>
      if c < |s.calls| && Awaited(s.calls[c]).Some? && Outcome(s, Awaited(s.calls[c]).value).Some? then
        if Outcome(s, Awaited(s.calls[c]).value).value then Some(Proceed(s, c)) else Some(At(s, c, Failed))
      else None
    case Address(c, ok) =>
      if c < |s.calls| && s.calls[c] == Addressing then
        if ok then var (t, check) := Verified(s, expects); Some(At(t, c, VerifyingView(check)))
        else Some(At(s, c, Failed))
      else None
    case Owed(c, amount) =>
      if c < |s.calls| && s.calls[c].Viewing? then
        if amount.None? then Some(At(s, c, Failed))
        else if !s.calls[c].claiming then Some(At(s, c, Succeeded))
        else if amount.value == 0 then Some(At(s, c, NothingOwed))
        else Some(At(s, c, Succeeded).(log := s.log + [TransactionSent(c)]))
      else None
  }

  /** The state after a run, none if some event could not happen. */
  function Run(events: seq<Event>, expects: bool): Option<State> {
    if events == [] then Some(INITIAL)
    else
      var before := Run(events[..|events| - 1], expects);
      if before.None? then None else Step(before.value, events[|events| - 1], expects)
  }

  // ---- what every run keeps ----

  /** Every transaction and every view comes after a successful check. */
  ghost predicate Guarded(log: seq<Effect>) {
    forall i :: 0 <= i < |log| && !log[i].CheckSucceeded? ==> exists j :: 0 <= j < i && log[j].CheckSucceeded?
  }

  ghost predicate HasSucceeded(log: seq<Effect>) {
    exists j :: 0 <= j < |log| && log[j].CheckSucceeded?
  }

  predicate BeyondCheck(pc: Pc) {
    pc.Addressing? || pc.VerifyingView? || pc.Viewing? || pc.Succeeded? || pc.NothingOwed?
  }

  /** Only the newest check can be kept, and every other one was rejected. */
  ghost predicate ChecksKept(s: State) {
    && (s.networkCheck.Some? ==>
          s.networkCheck.value + 1 == |s.checks| && s.checks[s.networkCheck.value] != Rejected)
    && (forall k :: 0 <= k < |s.checks| && s.networkCheck != Some(k) ==> s.checks[k] == Rejected)
  }

  /** The log records exactly the checks that succeeded. */
  ghost predicate SuccessesLogged(s: State) {
    forall k: nat :: CheckSucceeded(k) in s.log <==> k < |s.checks| && s.checks[k] == Fulfilled
  }

  ghost predicate CallsGuarded(s: State) {
    forall c :: 0 <= c < |s.calls| ==>
      && (BeyondCheck(s.calls[c]) ==> HasSucceeded(s.log))
      && (Awaited(s.calls[c]).Some? ==>
            Awaited(s.calls[c]).value.Some? && Awaited(s.calls[c]).value.value < |s.checks|)
  }

  ghost predicate Invariant(s: State) {
    ChecksKept(s) && SuccessesLogged(s) && CallsGuarded(s) && Guarded(s.log)
  }

  lemma LogGrows(log: seq<Effect>, e: Effect)
    requires Guarded(log) && (e.CheckSucceeded? || HasSucceeded(log))
    ensures Guarded(log + [e])
    ensures HasSucceeded(log) || e.CheckSucceeded? ==> HasSucceeded(log + [e])
    ensures forall k :: CheckSucceeded(k) in log + [e] <==> CheckSucceeded(k) in log || e == CheckSucceeded(k)
  {
    var longer := log + [e];
    forall i | 0 <= i < |longer| && !longer[i].CheckSucceeded?
      ensures exists j :: 0 <= j < i && longer[j].CheckSucceeded?
    {
      if i < |log| {
        var j :| 0 <= j < i && log[j].CheckSucceeded?;
        assert longer[j].CheckSucceeded?;
      } else {
        var j :| 0 <= j < |log| && log[j].CheckSucceeded?;
        assert longer[j].CheckSucceeded?;
      }
    }
    if HasSucceeded(log) {
      var j :| 0 <= j < |log| && log[j].CheckSucceeded?;
      assert longer[j].CheckSucceeded?;
    } else if e.CheckSucceeded? {
      assert longer[|log|].CheckSucceeded?;
    }
  }

  lemma VerifiedKeeps(s: State)
    requires Invariant(s)
    ensures var (t, check) := Verified(s, true);
            Invariant(t) && t.calls == s.calls && t.log == s.log && check.Some? && check.value < |t.checks|
  {
    hide Guarded, HasSucceeded;
  }

  lemma StartKeeps(s: State, kind: Kind)
    requires Invariant(s)
    ensures Invariant(Step(s, Start(kind), true).value)
  {
    VerifiedKeeps(s);
    hide Guarded, HasSucceeded, Verified, ChecksKept, SuccessesLogged;
  }

  lemma SettleKeeps(s: State, k: nat, ok: bool)
    requires Invariant(s) && k < |s.checks| && s.checks[k] == InFlight
    ensures Invariant(Settled(s, k, ok))
  {
    LogGrows(s.log, CheckSucceeded(k));
    hide Guarded, HasSucceeded;
  }

  lemma CatchKeeps(s: State, k: nat)
    requires Invariant(s) && k < |s.checks| && s.checks[k] == Rejecting
    ensures Invariant(Caught(s, k))
  {
    hide Guarded, HasSucceeded;
  }

  /** Moving one call, and logging something else than a success. */
  lemma CallMoves(s: State, c: nat, pc: Pc, more: seq<Effect>)
    requires Invariant(s) && c < |s.calls|
    requires |more| <= 1 && (more != [] ==> HasSucceeded(s.log) && !more[0].CheckSucceeded?)
    requires BeyondCheck(pc) ==> HasSucceeded(s.log)
    requires Awaited(pc).Some? ==> Awaited(pc).value.Some? && Awaited(pc).value.value < |s.checks|
    ensures Invariant(At(s, c, pc).(log := s.log + more))
  {
    if more != [] {
      LogGrows(s.log, more[0]);
      assert more == [more[0]];
    } else {
      assert s.log + more == s.log;
    }
    hide Guarded, HasSucceeded, BeyondCheck, Awaited;
  }

  lemma ResumeKeeps(s: State, c: nat)
    requires Invariant(s) && Step(s, Resume(c), true).Some?
    ensures Invariant(Step(s, Resume(c), true).value)
  {
    var check := Awaited(s.calls[c]).value;
    assert s.log + [] == s.log;
    if Outcome(s, check).value {
      hide Guarded, HasSucceeded, ChecksKept, SuccessesLogged, CallsGuarded;
      match s.calls[c]
      case Verifying(Verify, _) => CallMoves(s, c, Succeeded, []);
      case Verifying(Send, _) => CallMoves(s, c, Succeeded, [TransactionSent(c)]);
      case Verifying(View, _) => CallMoves(s, c, Viewing(false), [ViewCalled(c)]);
      case Verifying(Claim, _) => CallMoves(s, c, Addressing, []);
      case VerifyingView(_) => CallMoves(s, c, Viewing(true), [ViewCalled(c)]);
    } else {
      hide Guarded, HasSucceeded, ChecksKept, SuccessesLogged, CallsGuarded;
      CallMoves(s, c, Failed, []);
    }
  }

  lemma AddressKeeps(s: State, c: nat, ok: bool)
    requires Invariant(s) && Step(s, Address(c, ok), true).Some?
    ensures Invariant(Step(s, Address(c, ok), true).value)
  {
    VerifiedKeeps(s);
    var (t, check) := Verified(s, true);
    assert t.log + [] == t.log && s.log + [] == s.log;
    assert HasSucceeded(s.log);
    hide Guarded, HasSucceeded, ChecksKept, SuccessesLogged, CallsGuarded, Verified;
    if ok {
      CallMoves(t, c, VerifyingView(check), []);
    } else {
      CallMoves(s, c, Failed, []);
    }
  }

  lemma OwedKeeps(s: State, c: nat, amount: Option<nat>)
    requires Invariant(s) && Step(s, Owed(c, amount), true).Some?
    ensures Invariant(Step(s, Owed(c, amount), true).value)
  {
    assert s.log + [] == s.log;
    assert HasSucceeded(s.log);
    hide Guarded, HasSucceeded, ChecksKept, SuccessesLogged, CallsGuarded;
    CallMoves(s, c, Failed, []);
    CallMoves(s, c, NothingOwed, []);
    CallMoves(s, c, Succeeded, []);
    CallMoves(s, c, Succeeded, [TransactionSent(c)]);
  }

  lemma StepKeeps(s: State, e: Event)
    requires Invariant(s) && Step(s, e, true).Some?
    ensures Invariant(Step(s, e, true).value)
  {
    hide Invariant;
    match e
    case Start(kind) => StartKeeps(s, kind);
    case Settle(k, ok) => SettleKeeps(s, k, ok);
    case Catch(k) => CatchKeeps(s, k);
    case Resume(c) => ResumeKeeps(s, c);
    case Address(c, ok) => AddressKeeps(s, c, ok);
    case Owed(c, amount) => OwedKeeps(s, c, amount);
  }

  lemma {:induction false} RunKeeps(events: seq<Event>)
    requires Run(events, true).Some?
    ensures Invariant(Run(events, true).value)
  {
    if events != [] {
      RunKeeps(events[..|events| - 1]);
      StepKeeps(Run(events[..|events| - 1], true).value, events[|events| - 1]);
    }
  }

  // ---- the theorems ----

  /**
   * In every run of an object that expects a genesis: no transaction is sent and
   * no view is called before a check has succeeded, at most one check is
   * unsettled, a check whose handler ran is not kept, and a successful one is.
   */
  lemma GuardHolds(events: seq<Event>)
    requires Run(events, true).Some?
    ensures var s := Run(events, true).value;
      && Guarded(s.log)
      && (forall j, k :: 0 <= j < k < |s.checks| ==>
            !((s.checks[j].InFlight? || s.checks[j].Rejecting?) && (s.checks[k].InFlight? || s.checks[k].Rejecting?)))
      && (forall k :: 0 <= k < |s.checks| && s.checks[k] == Rejected ==> s.networkCheck != Some(k))
      && (forall k :: 0 <= k < |s.checks| && s.checks[k] == Fulfilled ==> s.networkCheck == Some(k))
  {
    RunKeeps(events);
    hide Guarded;
  }

  /** Once a check has succeeded, no run continues to start another one. */
  lemma {:induction false} SuccessIsFinal(events: seq<Event>, more: seq<Event>)
    requires Run(events + more, true).Some?
    ensures Run(events, true).Some?
    ensures HasSucceeded(Run(events, true).value.log) ==>
              && Run(events + more, true).value.checks == Run(events, true).value.checks
              && Run(events + more, true).value.networkCheck == Run(events, true).value.networkCheck
              && HasSucceeded(Run(events + more, true).value.log)
    decreases |more|
  {
    if more == [] {
      assert events + more == events;
    } else {
      var init, e := more[..|more| - 1], more[|more| - 1];
      assert (events + more)[..|events + more| - 1] == events + init;
      SuccessIsFinal(events, init);
      RunKeeps(events + init);
      if HasSucceeded(Run(events, true).value.log) {
        SettledStaysSettled(Run(events + init, true).value, e);
      }
    }
  }

  /** With a successful check kept, no event touches the checks. */
  lemma ChecksStay(s: State, e: Event, k: nat)
    requires s.networkCheck == Some(k) && Step(s, e, true).Some?
    requires forall j :: 0 <= j < |s.checks| ==> s.checks[j] == Fulfilled || s.checks[j] == Rejected
    ensures var t := Step(s, e, true).value;
            t.checks == s.checks && t.networkCheck == s.networkCheck && s.log <= t.log
  {}

  lemma SuccessStays(log: seq<Effect>, longer: seq<Effect>)
    requires HasSucceeded(log) && log <= longer
    ensures HasSucceeded(longer)
  {
    var j :| 0 <= j < |log| && log[j].CheckSucceeded?;
    assert longer[j].CheckSucceeded?;
  }

  lemma KeptCheck(s: State) returns (k: nat)
    requires ChecksKept(s) && SuccessesLogged(s) && HasSucceeded(s.log)
    ensures s.networkCheck == Some(k)
    ensures forall j :: 0 <= j < |s.checks| ==> s.checks[j] == Fulfilled || s.checks[j] == Rejected
  {
    var j :| 0 <= j < |s.log| && s.log[j].CheckSucceeded?;
    k := s.log[j].check;
    assert CheckSucceeded(k) in s.log;
  }

  lemma SettledStaysSettled(s: State, e: Event)
    requires Invariant(s) && HasSucceeded(s.log) && Step(s, e, true).Some?
    ensures var t := Step(s, e, true).value;
            t.checks == s.checks && t.networkCheck == s.networkCheck && HasSucceeded(t.log)
  {
    hide Step, ChecksKept, SuccessesLogged, CallsGuarded, Guarded, HasSucceeded;
    var k := KeptCheck(s);
    ChecksStay(s, e, k);
    SuccessStays(s.log, Step(s, e, true).value.log);
  }

  // ---- the whole story of a call ----

  /** A claim whose view is under way has called it, and each call sends at most once. */
  ghost predicate ClaimsRead(s: State) {
    && (forall i :: 0 <= i < |s.log| && !s.log[i].CheckSucceeded? ==> s.log[i].call < |s.calls|)
    && (forall c :: 0 <= c < |s.calls| && s.calls[c] == Viewing(true) ==> ViewCalled(c) in s.log)
    && (forall c :: 0 <= c < |s.calls| && !s.calls[c].Succeeded? ==> TransactionSent(c) !in s.log)
    && (forall i, j :: 0 <= i < j < |s.log| && s.log[i].TransactionSent? ==> s.log[i] != s.log[j])
  }

  lemma ClaimMoves(s: State, c: nat, pc: Pc, more: seq<Effect>)
    requires ClaimsRead(s) && c < |s.calls|
    requires more == [] || (pc == Viewing(true) && more == [ViewCalled(c)]) || (pc == Viewing(false) && more == [ViewCalled(c)])
          || (pc == Succeeded && more == [TransactionSent(c)] && TransactionSent(c) !in s.log)
    requires pc == Viewing(true) ==> more != []
    requires s.calls[c].Succeeded? ==> pc.Succeeded?
    ensures ClaimsRead(At(s, c, pc).(log := s.log + more))
  {
    var t := At(s, c, pc).(log := s.log + more);
    forall i, j | 0 <= i < j < |t.log| && t.log[i].TransactionSent? ensures t.log[i] != t.log[j] {
      if j >= |s.log| { assert s.log[i] in s.log; }
    }
  }

  lemma StartMoves(s: State, pc: Pc)
    requires ClaimsRead(s) && pc.Verifying?
    ensures ClaimsRead(s.(calls := s.calls + [pc]))
  {}

  lemma SuccessMoves(s: State, k: nat)
    requires ClaimsRead(s)
    ensures ClaimsRead(s.(log := s.log + [CheckSucceeded(k)]))
  {
    var more := [CheckSucceeded(k)];
    assert forall c :: TransactionSent(c) in s.log + more <==> TransactionSent(c) in s.log;
    assert forall c :: ViewCalled(c) in s.log + more <==> ViewCalled(c) in s.log;
  }

  lemma OnlyCallsAndLog(s: State, t: State)
    requires s.calls == t.calls && s.log == t.log
    ensures ClaimsRead(s) <==> ClaimsRead(t)
  {}

  /** What the events that move no call add: a new call, or a success in the log. */
  lemma QuietIs(s: State, e: Event, expects: bool) returns (more: seq<Effect>, added: seq<Pc>)
    requires Step(s, e, expects).Some? && (e.Start? || e.Settle? || e.Catch?)
    ensures var t := Step(s, e, expects).value; t.log == s.log + more && t.calls == s.calls + added
    ensures more == [] || more == [CheckSucceeded(if e.Settle? then e.check else 0)]
    ensures if e.Start? then |added| == 1 && added[0].Verifying? && added[0].kind == e.kind && more == [] else added == []
  {
    more := if e.Settle? && e.ok then [CheckSucceeded(e.check)] else [];
    added := if e.Start? then [Verifying(e.kind, Verified(s, expects).1)] else [];
  }

  lemma QuietMoves(s: State, more: seq<Effect>, added: seq<Pc>, t: State)
    requires ClaimsRead(s) && t.log == s.log + more && t.calls == s.calls + added
    requires more == [] || (|more| == 1 && more[0].CheckSucceeded? && added == [])
    requires added == [] || (|added| == 1 && added[0].Verifying?)
    ensures ClaimsRead(t)
  {
    hide ClaimsRead;
    if more != [] {
      SuccessMoves(s, more[0].check);
      assert more == [CheckSucceeded(more[0].check)];
      OnlyCallsAndLog(s.(log := s.log + more), t);
    } else if added != [] {
      StartMoves(s, added[0]);
      assert added == [added[0]];
      OnlyCallsAndLog(s.(calls := s.calls + added), t);
    } else {
      OnlyCallsAndLog(s, t);
    }
  }

  /** What each call was started for. */
  function Kinds(events: seq<Event>): seq<Kind> {
    if events == [] then []
    else
      var last := events[|events| - 1];
      Kinds(events[..|events| - 1]) + (if last.Start? then [last.kind] else [])
  }

  /** Where a call is agrees with what it was started for. */
  predicate PcFits(pc: Pc, kind: Kind) {
    match pc
    case Verifying(k, _) => k == kind
    case Addressing => kind == Claim
    case VerifyingView(_) => kind == Claim
    case Viewing(claiming) => kind == if claiming then Claim else View
    case _ => true
  }

  ghost predicate CallsFit(calls: seq<Pc>, kinds: seq<Kind>) {
    |calls| == |kinds| && forall c :: 0 <= c < |calls| ==> PcFits(calls[c], kinds[c])
  }

  predicate AnswersOwed(e: Event, c: nat) { e.Owed? && e.call == c && e.amount.Some? && e.amount.value > 0 }

  /** The call's view answered a positive amount at some point of the run. */
  ghost predicate WasOwed(events: seq<Event>, c: nat) {
    exists k :: 0 <= k < |events| && AnswersOwed(events[k], c)
  }

  ghost predicate ViewedBefore(log: seq<Effect>, j: nat, c: nat)
    requires j <= |log|
  {
    exists i :: 0 <= i < j && log[i] == ViewCalled(c)
  }

  /** Only senders and claims send, and a claim only behind its own view and the answer that something is owed. */
  ghost predicate ClaimsTold(log: seq<Effect>, kinds: seq<Kind>, events: seq<Event>) {
    forall j :: 0 <= j < |log| && log[j].TransactionSent? ==>
      var c := log[j].call;
      c < |kinds| && (kinds[c] == Send || (kinds[c] == Claim && ViewedBefore(log, j, c) && WasOwed(events, c)))
  }

  lemma WasOwedGrows(events: seq<Event>, e: Event, c: nat)
    ensures WasOwed(events + [e], c) <==> WasOwed(events, c) || AnswersOwed(e, c)
  {
    hide AnswersOwed;
    if k :| 0 <= k < |events| && AnswersOwed(events[k], c) {
      assert AnswersOwed((events + [e])[k], c);
    } else if AnswersOwed(e, c) {
      assert AnswersOwed((events + [e])[|events|], c);
    }
  }

  lemma ViewedGrows(log: seq<Effect>, more: seq<Effect>, j: nat, c: nat)
    requires j <= |log| && ViewedBefore(log, j, c)
    ensures ViewedBefore(log + more, j, c)
  {
    var i :| 0 <= i < j && log[i] == ViewCalled(c);
    assert (log + more)[i] == ViewCalled(c);
  }

  /** One more event, with at most one more effect. */
  lemma StoryGrows(log: seq<Effect>, kinds: seq<Kind>, events: seq<Event>, e: Event, more: seq<Effect>, kinds': seq<Kind>)
    requires ClaimsTold(log, kinds, events) && kinds <= kinds' && |more| <= 1
    requires more != [] && more[0].TransactionSent? ==>
               var c := more[0].call;
               c < |kinds'| && (kinds'[c] == Send || (kinds'[c] == Claim && ViewCalled(c) in log && AnswersOwed(e, c)))
    ensures ClaimsTold(log + more, kinds', events + [e])
  {
    hide WasOwed, AnswersOwed, ViewedBefore;
    var longer := log + more;
    forall j | 0 <= j < |longer| && longer[j].TransactionSent?
      ensures longer[j].call < |kinds'|
      ensures kinds'[longer[j].call] == Send
           || (&& kinds'[longer[j].call] == Claim
               && ViewedBefore(longer, j, longer[j].call) && WasOwed(events + [e], longer[j].call))
    {
      var c := longer[j].call;
      WasOwedGrows(events, e, c);
      if j < |log| {
        assert log[j] == longer[j];
        if kinds'[c] == Claim { ViewedGrows(log, more, j, c); }
      } else if kinds'[c] == Claim {
        ViewedGrows(log, more, |log|, c);
      }
    }
  }

  ghost predicate Story(s: State, events: seq<Event>) {
    ClaimsRead(s) && CallsFit(s.calls, Kinds(events)) && ClaimsTold(s.log, Kinds(events), events)
  }

  /** What a call may log as it moves: a view as it starts one, or a transaction as it ends. */
  ghost predicate MayLog(s: State, events: seq<Event>, e: Event, c: nat, pc: Pc, more: seq<Effect>)
    requires c < |s.calls| == |Kinds(events)|
  {
    if more == [] then pc != Viewing(true)
    else if more == [ViewCalled(c)] then pc.Viewing?
    else
      && more == [TransactionSent(c)] && pc == Succeeded
      && (Kinds(events)[c] == Send || (Kinds(events)[c] == Claim && ViewCalled(c) in s.log && AnswersOwed(e, c)))
  }

  /** An event that moves one call and logs at most one effect keeps the story. */
  lemma MoveKeepsStory(s: State, events: seq<Event>, e: Event, c: nat, pc: Pc, more: seq<Effect>)
    requires Story(s, events) && !e.Start? && c < |s.calls| && !s.calls[c].Succeeded?
    requires PcFits(pc, Kinds(events)[c]) && MayLog(s, events, e, c, pc, more)
    ensures Story(At(s, c, pc).(log := s.log + more), events + [e])
  {
    assert Kinds(events) + [] == Kinds(events);
    ClaimMoves(s, c, pc, more);
    hide Kinds, ClaimsRead, ClaimsTold, PcFits, AnswersOwed;
    StoryGrows(s.log, Kinds(events), events, e, more, Kinds(events));
  }

  lemma NewCallFits(calls: seq<Pc>, kinds: seq<Kind>, added: seq<Pc>, kinds': seq<Kind>)
    requires CallsFit(calls, kinds) && |added| == |kinds'| <= 1
    requires added != [] ==> PcFits(added[0], kinds'[0])
    ensures CallsFit(calls + added, kinds + kinds')
  {}

  lemma QuietStory(s: State, events: seq<Event>, e: Event, expects: bool)
    requires Story(s, events) && Step(s, e, expects).Some? && (e.Start? || e.Settle? || e.Catch?)
    ensures Story(Step(s, e, expects).value, events + [e])
  {
    var more, added := QuietIs(s, e, expects);
    var kinds' := if e.Start? then [e.kind] else [];
    assert Kinds(events + [e]) == Kinds(events) + kinds';
    hide Step, Kinds, ClaimsTold, ClaimsRead, CallsFit;
    QuietMoves(s, more, added, Step(s, e, expects).value);
    NewCallFits(s.calls, Kinds(events), added, kinds');
    StoryGrows(s.log, Kinds(events), events, e, more, Kinds(events + [e]));
  }

  lemma ResumeStory(s: State, events: seq<Event>, c: nat, expects: bool)
    requires Story(s, events) && Step(s, Resume(c), expects).Some?
    ensures Story(Step(s, Resume(c), expects).value, events + [Resume(c)])
  {
    var e := Resume(c);
    assert s.log + [] == s.log;
    assert PcFits(s.calls[c], Kinds(events)[c]);
    hide Story, Kinds;
    if Outcome(s, Awaited(s.calls[c]).value).value {
      match s.calls[c]
      case Verifying(Verify, _) => MoveKeepsStory(s, events, e, c, Succeeded, []);
      case Verifying(Send, _) => MoveKeepsStory(s, events, e, c, Succeeded, [TransactionSent(c)]);
      case Verifying(View, _) => MoveKeepsStory(s, events, e, c, Viewing(false), [ViewCalled(c)]);
      case Verifying(Claim, _) => MoveKeepsStory(s, events, e, c, Addressing, []);
      case VerifyingView(_) => MoveKeepsStory(s, events, e, c, Viewing(true), [ViewCalled(c)]);
    } else {
      MoveKeepsStory(s, events, e, c, Failed, []);
    }
  }

  lemma AddressStory(s: State, events: seq<Event>, c: nat, ok: bool, expects: bool)
    requires Story(s, events) && Step(s, Address(c, ok), expects).Some?
    ensures Story(Step(s, Address(c, ok), expects).value, events + [Address(c, ok)])
  {
    var (t, check) := Verified(s, expects);
    assert Story(t, events) && PcFits(s.calls[c], Kinds(events)[c]);
    assert t.log + [] == t.log && s.log + [] == s.log && t.calls == s.calls;
    hide Story, Kinds, Verified;
    if ok {
      MoveKeepsStory(t, events, Address(c, ok), c, VerifyingView(check), []);
    } else {
      MoveKeepsStory(s, events, Address(c, ok), c, Failed, []);
    }
  }

  lemma OwedStory(s: State, events: seq<Event>, c: nat, amount: Option<nat>, expects: bool)
    requires Story(s, events) && Step(s, Owed(c, amount), expects).Some?
    ensures Story(Step(s, Owed(c, amount), expects).value, events + [Owed(c, amount)])
  {
    var e := Owed(c, amount);
    assert s.log + [] == s.log;
    assert s.calls[c].claiming ==> ViewCalled(c) in s.log;
    assert amount.Some? && amount.value > 0 ==> AnswersOwed(e, c);
    hide Story, Kinds, AnswersOwed;
    if amount.None? {
      MoveKeepsStory(s, events, e, c, Failed, []);
    } else if !s.calls[c].claiming {
      MoveKeepsStory(s, events, e, c, Succeeded, []);
    } else if amount.value == 0 {
      MoveKeepsStory(s, events, e, c, NothingOwed, []);
    } else {
      MoveKeepsStory(s, events, e, c, Succeeded, [TransactionSent(c)]);
    }
  }

  lemma {:induction false} StoryHolds(events: seq<Event>, expects: bool)
    requires Run(events, expects).Some?
    ensures Story(Run(events, expects).value, events)
  {
    if events != [] {
      var init, e := events[..|events| - 1], events[|events| - 1];
      StoryHolds(init, expects);
      assert events == init + [e];
      var s := Run(init, expects).value;
      hide Story;
      match e
      case Resume(c) => ResumeStory(s, init, c, expects);
      case Address(c, ok) => AddressStory(s, init, c, ok, expects);
      case Owed(c, amount) => OwedStory(s, init, c, amount, expects);
      case _ => QuietStory(s, init, e, expects);
    }
  }

  /** In every run each call sends at most once, and a claim whose view is under way has called it. */
  lemma ClaimsReadAlways(events: seq<Event>, expects: bool)
    requires Run(events, expects).Some?
    ensures ClaimsRead(Run(events, expects).value)
  {
    StoryHolds(events, expects);
  }

  /**
   * In every run, wherever the transaction of a call stands in the log, the call
   * was started to send or to claim; and behind that of a claim stand its own view
   * and, in the run, that view's answer of a positive amount.
   */
  lemma ClaimSendsOnlyWhatIsOwed(events: seq<Event>, expects: bool, c: nat, j: nat)
    requires Run(events, expects).Some?
    requires j < |Run(events, expects).value.log| && Run(events, expects).value.log[j] == TransactionSent(c)
    ensures c < |Kinds(events)| && (Kinds(events)[c] == Send || Kinds(events)[c] == Claim)
    ensures Kinds(events)[c] == Claim ==>
              exists i :: 0 <= i < j && Run(events, expects).value.log[i] == ViewCalled(c)
    ensures Kinds(events)[c] == Claim ==> exists k :: 0 <= k < |events| && AnswersOwed(events[k], c)
  {
    StoryHolds(events, expects);
    hide Run, Kinds;
  }

  // ---- where a call is, told by what has happened to it ----

  /** What can happen to a call. */
  datatype Fact =
    | CheckPassed | CheckRejected          // it resumed behind its check
    | AddressCame | AddressFailed
    | ViewCheckPassed | ViewCheckRejected  // a claim resumed behind the check of its own view
    | ViewFailed | OwesNothing | Owes      // what its view answered

  predicate Passes(s: State, check: Option<nat>) {
    check.None? || (check.value < |s.checks| && s.checks[check.value] == Fulfilled)
  }

  predicate Rejects(s: State, check: Option<nat>) {
    check.Some? && check.value < |s.checks| && s.checks[check.value] == Rejected
  }

  /** The event makes this happen to call c. */
  predicate Now(s: State, e: Event, c: nat, fact: Fact) {
    match fact
    case CheckPassed => e == Resume(c) && c < |s.calls| && s.calls[c].Verifying? && Passes(s, s.calls[c].check)
    case CheckRejected => e == Resume(c) && c < |s.calls| && s.calls[c].Verifying? && Rejects(s, s.calls[c].check)
    case AddressCame => e == Address(c, true)
    case AddressFailed => e == Address(c, false)
    case ViewCheckPassed => e == Resume(c) && c < |s.calls| && s.calls[c].VerifyingView? && Passes(s, s.calls[c].check)
    case ViewCheckRejected => e == Resume(c) && c < |s.calls| && s.calls[c].VerifyingView? && Rejects(s, s.calls[c].check)
    case ViewFailed => e == Owed(c, None)
    case OwesNothing => e == Owed(c, Some(0))
    case Owes => AnswersOwed(e, c)
  }

  function NowFacts(s: State, e: Event, c: nat): set<Fact> { set fact: Fact | Now(s, e, c, fact) }

  /** Everything that has happened to call c in the run. */
  function Facts(events: seq<Event>, expects: bool, c: nat): set<Fact> {
    if events == [] then {}
    else
      var init := events[..|events| - 1];
      Facts(init, expects, c)
      + (if Run(init, expects).Some? then NowFacts(Run(init, expects).value, events[|events| - 1], c) else {})
  }

  /** Each thing happens only behind the one it needs, and never two that exclude each other. */
  predicate InOrder(kind: Kind, facts: set<Fact>) {
    && !({CheckPassed, CheckRejected} <= facts)
    && (AddressCame in facts || AddressFailed in facts ==> kind == Claim && CheckPassed in facts)
    && !({AddressCame, AddressFailed} <= facts)
    && (ViewCheckPassed in facts || ViewCheckRejected in facts ==> AddressCame in facts)
    && !({ViewCheckPassed, ViewCheckRejected} <= facts)
    && (facts !! {ViewFailed, OwesNothing, Owes} || Views(kind, facts))
    && !({ViewFailed, OwesNothing} <= facts) && !({ViewFailed, Owes} <= facts) && !({OwesNothing, Owes} <= facts)
  }

  /** The call has called the contract's view. */
  predicate Views(kind: Kind, facts: set<Fact>) {
    (kind == View && CheckPassed in facts) || (kind == Claim && ViewCheckPassed in facts)
  }

  /** The call has sent its transaction. */
  predicate Sends(kind: Kind, facts: set<Fact>) {
    (kind == Send && CheckPassed in facts) || (kind == Claim && Owes in facts)
  }

  /** What has happened to a call decides where it is. */
  predicate Stands(pc: Pc, kind: Kind, facts: set<Fact>) {
    match pc
    case Verifying(k, _) => k == kind && facts == {}
    case Addressing => kind == Claim && facts == {CheckPassed}
    case VerifyingView(_) => kind == Claim && facts == {CheckPassed, AddressCame}
    case Viewing(claiming) =>
      claiming == (kind == Claim) && Views(kind, facts) && facts !! {ViewFailed, OwesNothing, Owes}
    case Succeeded =>
      if kind == Claim then Owes in facts
      else if kind == View then OwesNothing in facts || Owes in facts
      else CheckPassed in facts
    case NothingOwed => kind == Claim && OwesNothing in facts
    case Failed => !(facts !! {CheckRejected, AddressFailed, ViewCheckRejected, ViewFailed})
  }

  /** Where call c is, what it has logged and what has happened to it agree. */
  ghost predicate CallTold(s: State, c: nat, kind: Kind, facts: set<Fact>)
    requires c < |s.calls|
  {
    && InOrder(kind, facts) && Stands(s.calls[c], kind, facts)
    && (TransactionSent(c) in s.log <==> Sends(kind, facts))
    && (ViewCalled(c) in s.log <==> Views(kind, facts))
  }

  predicate About(e: Event, c: nat) {
    (e.Resume? && e.call == c) || (e.Address? && e.call == c) || (e.Owed? && e.call == c)
  }

  lemma Unaffected(s: State, e: Event, c: nat, expects: bool)
    requires Step(s, e, expects).Some? && !About(e, c)
    ensures var t := Step(s, e, expects).value;
      && NowFacts(s, e, c) == {}
      && (c < |s.calls| ==> c < |t.calls| && t.calls[c] == s.calls[c])
      && (TransactionSent(c) in t.log <==> TransactionSent(c) in s.log)
      && (ViewCalled(c) in t.log <==> ViewCalled(c) in s.log)
  {
    VerifiedLeaves(s, expects);
    hide Verified;
    assert NowFacts(s, e, c) == {};
    match e
    case Settle(k, ok) =>
    case Catch(k) =>
    case Resume(d) =>
    case _ =>
  }

  lemma VerifiedLeaves(s: State, expects: bool)
    ensures var t := Verified(s, expects).0;
            t.calls == s.calls && t.log == s.log && (t.checks == s.checks || t.checks == s.checks + [InFlight])
  {}

  lemma NowResumed(s: State, c: nat, expects: bool) returns (fact: Fact)
    requires Step(s, Resume(c), expects).Some?
    ensures NowFacts(s, Resume(c), c) == {fact}
    ensures s.calls[c].Verifying? ==> fact == if Passes(s, s.calls[c].check) then CheckPassed else CheckRejected
    ensures s.calls[c].VerifyingView? ==> fact == if Passes(s, s.calls[c].check) then ViewCheckPassed else ViewCheckRejected
  {
    var ok := Passes(s, Awaited(s.calls[c]).value);
    fact := if s.calls[c].Verifying? then if ok then CheckPassed else CheckRejected
            else if ok then ViewCheckPassed else ViewCheckRejected;
  }

  lemma ResumeTold(s: State, c: nat, kind: Kind, facts: set<Fact>, expects: bool)
    requires Step(s, Resume(c), expects).Some? && CallTold(s, c, kind, facts)
    ensures CallTold(Step(s, Resume(c), expects).value, c, kind, facts + NowFacts(s, Resume(c), c))
  {
    hide CallTold, NowFacts;
    if s.calls[c].Verifying? {
      FirstResumeTold(s, c, kind, facts, expects);
    } else {
      ViewResumeTold(s, c, kind, facts, expects);
    }
  }

  lemma FirstResumeTold(s: State, c: nat, kind: Kind, facts: set<Fact>, expects: bool)
    requires Step(s, Resume(c), expects).Some? && CallTold(s, c, kind, facts) && s.calls[c].Verifying?
    ensures CallTold(Step(s, Resume(c), expects).value, c, kind, facts + NowFacts(s, Resume(c), c))
  {
    var fact := NowResumed(s, c, expects);
    hide NowFacts;
    assert facts == {} && facts + {fact} == {fact};
  }

  lemma ViewResumeTold(s: State, c: nat, kind: Kind, facts: set<Fact>, expects: bool)
    requires Step(s, Resume(c), expects).Some? && CallTold(s, c, kind, facts) && s.calls[c].VerifyingView?
    ensures CallTold(Step(s, Resume(c), expects).value, c, kind, facts + NowFacts(s, Resume(c), c))
  {
    var fact := NowResumed(s, c, expects);
    hide NowFacts;
  }

  lemma AddressTold(s: State, c: nat, ok: bool, kind: Kind, facts: set<Fact>, expects: bool)
    requires Step(s, Address(c, ok), expects).Some? && CallTold(s, c, kind, facts)
    ensures CallTold(Step(s, Address(c, ok), expects).value, c, kind, facts + NowFacts(s, Address(c, ok), c))
  {
    assert NowFacts(s, Address(c, ok), c) == {if ok then AddressCame else AddressFailed};
  }

  lemma OwedTold(s: State, c: nat, amount: Option<nat>, kind: Kind, facts: set<Fact>, expects: bool)
    requires Step(s, Owed(c, amount), expects).Some? && CallTold(s, c, kind, facts)
    ensures CallTold(Step(s, Owed(c, amount), expects).value, c, kind, facts + NowFacts(s, Owed(c, amount), c))
  {
    NowAnswered(s, c, amount);
    hide NowFacts;
  }

  lemma NowAnswered(s: State, c: nat, amount: Option<nat>)
    ensures NowFacts(s, Owed(c, amount), c) ==
            {if amount.None? then ViewFailed else if amount.value == 0 then OwesNothing else Owes}
  {}

  /** What `EveryCallIsTold` says of a state, for the calls started and those still to come. */
  ghost predicate Tells(s: State, kinds: seq<Kind>, c: nat, facts: set<Fact>) {
    && |s.calls| == |kinds|
    && (c < |s.calls| ==> CallTold(s, c, kinds[c], facts))
    && (c >= |s.calls| ==> facts == {} && TransactionSent(c) !in s.log && ViewCalled(c) !in s.log)
  }

  lemma MovedTells(s: State, e: Event, c: nat, kinds: seq<Kind>, facts: set<Fact>, expects: bool)
    requires Tells(s, kinds, c, facts) && Step(s, e, expects).Some? && About(e, c)
    ensures Tells(Step(s, e, expects).value, kinds, c, facts + NowFacts(s, e, c))
  {
    assert c < |s.calls| == |Step(s, e, expects).value.calls|;
    hide CallTold, Step, NowFacts;
    match e
    case Resume(_) => ResumeTold(s, c, kinds[c], facts, expects);
    case Address(_, ok) => AddressTold(s, c, ok, kinds[c], facts, expects);
    case Owed(_, amount) => OwedTold(s, c, amount, kinds[c], facts, expects);
  }

  lemma StartedTells(s: State, e: Event, c: nat, kinds: seq<Kind>, facts: set<Fact>, expects: bool)
    requires Tells(s, kinds, c, facts) && Step(s, e, expects).Some? && !About(e, c)
    ensures Tells(Step(s, e, expects).value, kinds + (if e.Start? then [e.kind] else []), c, facts + NowFacts(s, e, c))
  {
    var t := Step(s, e, expects).value;
    assert |t.calls| == |s.calls| + (if e.Start? then 1 else 0);
    assert e.Start? ==> t.calls[|s.calls|].Verifying? && t.calls[|s.calls|].kind == e.kind;
    Unaffected(s, e, c, expects);
    assert facts + {} == facts;
    hide Step, NowFacts;
  }

  /**
   * In every run: what has happened to a call decides where it is, whether it has
   * sent its transaction and whether it has called the view.
   */
  lemma {:induction false} EveryCallIsTold(events: seq<Event>, expects: bool, c: nat)
    requires Run(events, expects).Some?
    ensures Tells(Run(events, expects).value, Kinds(events), c, Facts(events, expects, c))
  {
    if events != [] {
      hide Step, Tells, NowFacts;
      var init, e := events[..|events| - 1], events[|events| - 1];
      EveryCallIsTold(init, expects, c);
      var s, facts := Run(init, expects).value, Facts(init, expects, c);
      assert Kinds(init) + [] == Kinds(init);
      if About(e, c) {
        MovedTells(s, e, c, Kinds(init), facts, expects);
      } else {
        StartedTells(s, e, c, Kinds(init), facts, expects);
      }
    }
  }

  lemma FactsUnfold(events: seq<Event>, expects: bool, c: nat)
    requires events != [] && Run(events, expects).Some?
    ensures var init := events[..|events| - 1];
            && Run(init, expects).Some?
            && Facts(events, expects, c)
               == Facts(init, expects, c) + NowFacts(Run(init, expects).value, events[|events| - 1], c)
  {
    hide Step, NowFacts;
  }

  lemma {:induction false} OwesIff(events: seq<Event>, expects: bool, c: nat)
    requires Run(events, expects).Some?
    ensures Owes in Facts(events, expects, c) <==> WasOwed(events, c)
    ensures OwesNothing in Facts(events, expects, c) <==> Owed(c, Some(0)) in events
  {
    if events == [] {
      assert Facts([], expects, c) == {};
    } else {
      hide *;
      var init, e := events[..|events| - 1], events[|events| - 1];
      assert events == init + [e];
      FactsUnfold(events, expects, c);
      OwesIff(init, expects, c);
      WasOwedGrows(init, e, c);
      NowOwes(Run(init, expects).value, e, c);
    }
  }

  lemma NowOwes(s: State, e: Event, c: nat)
    ensures Owes in NowFacts(s, e, c) <==> AnswersOwed(e, c)
    ensures OwesNothing in NowFacts(s, e, c) <==> e == Owed(c, Some(0))
  {}

  /**
   * In every run a claim has sent its transaction, and succeeded, exactly if its
   * view answered a positive amount, and has ended with nothing owed exactly if
   * its view answered 0.
   */
  lemma ClaimSendsExactlyWhatIsOwed(events: seq<Event>, expects: bool, c: nat)
    requires Run(events, expects).Some? && c < |Kinds(events)| && Kinds(events)[c] == Claim
    ensures var s := Run(events, expects).value;
      && c < |s.calls|
      && (TransactionSent(c) in s.log <==> WasOwed(events, c))
      && (s.calls[c] == Succeeded <==> WasOwed(events, c))
      && (s.calls[c] == NothingOwed <==> Owed(c, Some(0)) in events)
  {
    hide Run, Kinds, Facts, WasOwed;
    EveryCallIsTold(events, expects, c);
    OwesIff(events, expects, c);
  }

  /** In every run a plain transaction is sent exactly if its call has succeeded, that is, came past its check. */
  lemma SendSucceedsExactlyBySending(events: seq<Event>, expects: bool, c: nat)
    requires Run(events, expects).Some? && c < |Kinds(events)| && Kinds(events)[c] == Send
    ensures var s := Run(events, expects).value;
      && c < |s.calls|
      && (s.calls[c] == Succeeded <==> TransactionSent(c) in s.log)
      && (s.calls[c] == Succeeded <==> CheckPassed in Facts(events, expects, c))
  {
    hide Run, Kinds, Facts;
    EveryCallIsTold(events, expects, c);
  }

  predicate BehindFulfilledCheck(s: State, c: nat) {
    && c < |s.calls|
    && ((s.calls[c].Verifying? && Passes(s, s.calls[c].check)) || (s.calls[c].VerifyingView? && Passes(s, s.calls[c].check)))
  }

  /**
   * Resuming a call behind a fulfilled check always goes on: a transaction is sent,
   * a view is called, also the one of a claim, and a claim asks for its address.
   */
  lemma PassedCallGoesOn(events: seq<Event>, expects: bool, c: nat)
    requires Run(events, expects).Some?
    requires BehindFulfilledCheck(Run(events, expects).value, c)
    ensures var s, after := Run(events, expects).value, Run(events + [Resume(c)], expects);
      && |Kinds(events)| == |s.calls| && after.Some? && |after.value.calls| == |s.calls|
      && match Kinds(events)[c]
         case Verify => after.value == s.(calls := s.calls[c := Succeeded])
         case Send => after.value == s.(calls := s.calls[c := Succeeded], log := s.log + [TransactionSent(c)])
         case View => after.value == s.(calls := s.calls[c := Viewing(false)], log := s.log + [ViewCalled(c)])
         case Claim =>
           if s.calls[c].VerifyingView?
           then after.value == s.(calls := s.calls[c := Viewing(true)], log := s.log + [ViewCalled(c)])
           else after.value == s.(calls := s.calls[c := Addressing])
  {
    EveryCallIsTold(events, expects, c);
    assert (events + [Resume(c)])[..|events|] == events;
    hide Run, Kinds, Facts, InOrder;
    PassedStep(Run(events, expects).value, c, expects);
    hide Step;
  }

  lemma PassedStep(s: State, c: nat, expects: bool)
    requires BehindFulfilledCheck(s, c)
    ensures Step(s, Resume(c), expects) == Some(Proceed(s, c))
  {}

  // ---- where the checks are ----

  /** A check stands where its assertion and its handler have brought it. */
  predicate CheckTold(check: Check, k: nat, events: seq<Event>) {
    && (check == Fulfilled <==> Settle(k, true) in events)
    && (check == Rejected <==> Catch(k) in events)
    && (check == Rejecting <==> Settle(k, false) in events && Catch(k) !in events)
    && (check == InFlight <==> Settle(k, true) !in events && Settle(k, false) !in events)
  }

  predicate NoneOfCheck(k: nat, events: seq<Event>) {
    Settle(k, true) !in events && Settle(k, false) !in events && Catch(k) !in events
  }

  ghost predicate ChecksTold(checks: seq<Check>, events: seq<Event>) {
    && (forall k :: 0 <= k < |checks| ==> CheckTold(checks[k], k, events))
    && (forall k :: k >= |checks| ==> NoneOfCheck(k, events))
  }

  lemma CheckMoves(check: Check, k: nat, events: seq<Event>, e: Event)
    ensures !(e.Settle? && e.check == k) && !(e.Catch? && e.check == k) ==>
              && (CheckTold(check, k, events + [e]) <==> CheckTold(check, k, events))
              && (NoneOfCheck(k, events + [e]) <==> NoneOfCheck(k, events))
    ensures check == InFlight && CheckTold(check, k, events) && e.Settle? && e.check == k ==>
              CheckTold(if e.ok then Fulfilled else Rejecting, k, events + [e])
    ensures check == Rejecting && CheckTold(check, k, events) && e == Catch(k) ==> CheckTold(Rejected, k, events + [e])
  {
    assert forall x :: x in events + [e] <==> x in events || x == e;
  }

  lemma StepOfChecks(s: State, e: Event, expects: bool)
    requires Step(s, e, expects).Some?
    ensures var checks, t := s.checks, Step(s, e, expects).value.checks;
            match e
            case Settle(k, ok) =>
              k < |checks| && checks[k] == InFlight && t == checks[k := if ok then Fulfilled else Rejecting]
            case Catch(k) => k < |checks| && checks[k] == Rejecting && t == checks[k := Rejected]
            case _ => t == checks || t == checks + [InFlight]
  {
    VerifiedLeaves(s, expects);
    hide Verified, Outcome;
  }

  lemma ChecksStep(s: State, events: seq<Event>, e: Event, expects: bool)
    requires ChecksTold(s.checks, events) && Step(s, e, expects).Some?
    ensures ChecksTold(Step(s, e, expects).value.checks, events + [e])
  {
    hide Step, CheckTold;
    StepOfChecks(s, e, expects);
    var t := Step(s, e, expects).value.checks;
    forall k: nat
      ensures k < |t| ==> CheckTold(t[k], k, events + [e])
      ensures k >= |t| ==> NoneOfCheck(k, events + [e])
    {
      CheckMoves(if k < |s.checks| then s.checks[k] else InFlight, k, events, e);
      if k == |s.checks| < |t| { FreshCheck(k, events); }
    }
  }

  lemma FreshCheck(k: nat, events: seq<Event>)
    requires NoneOfCheck(k, events)
    ensures CheckTold(InFlight, k, events)
  {}

  /** In every run a check is fulfilled, rejected or pending exactly as its assertion settled. */
  lemma {:induction false} EveryCheckIsTold(events: seq<Event>, expects: bool)
    requires Run(events, expects).Some?
    ensures ChecksTold(Run(events, expects).value.checks, events)
  {
    if events != [] {
      hide Step, ChecksTold;
      var init, e := events[..|events| - 1], events[|events| - 1];
      EveryCheckIsTold(init, expects);
      ChecksStep(Run(init, expects).value, init, e, expects);
      assert events == init + [e];
    }
  }

  /**
   * A call awaits the newest check, which its handler has not rejected; a new one
   * is started exactly if all earlier ones were, so a failure is never final.
   */
  lemma CallAwaitsLiveCheck(events: seq<Event>, kind: Kind)
    requires Run(events, true).Some?
    ensures var s, t := Run(events, true).value, Run(events + [Start(kind)], true);
      && t.Some? && t.value.checks != [] && t.value.log == s.log
      && t.value.calls == s.calls + [Verifying(kind, Some(|t.value.checks| - 1))]
      && t.value.checks[|t.value.checks| - 1] != Rejected
      && t.value.checks == if forall k :: 0 <= k < |s.checks| ==> s.checks[k] == Rejected
                           then s.checks + [InFlight] else s.checks
  {
    hide *;
    RunKeeps(events);
    RunFurther(events, Start(kind), true);
    StartAwaits(Run(events, true).value, kind);
  }

  lemma RunFurther(events: seq<Event>, e: Event, expects: bool)
    requires Run(events, expects).Some?
    ensures Run(events + [e], expects) == Step(Run(events, expects).value, e, expects)
  {
    hide Step;
    assert (events + [e])[..|events|] == events;
  }

  lemma StartAwaits(s: State, kind: Kind)
    requires Invariant(s)
    ensures var t := Step(s, Start(kind), true);
      && t.Some? && t.value.checks != [] && t.value.log == s.log
      && t.value.calls == s.calls + [Verifying(kind, Some(|t.value.checks| - 1))]
      && t.value.checks[|t.value.checks| - 1] != Rejected
      && t.value.checks == if forall k :: 0 <= k < |s.checks| ==> s.checks[k] == Rejected
                           then s.checks + [InFlight] else s.checks
  {
    hide SuccessesLogged, CallsGuarded, Guarded;
  }

  /** An object that expects no genesis starts no check, and its calls await none. */
  lemma {:induction false} NoGenesisNoChecks(events: seq<Event>, c: nat)
    requires Run(events, false).Some?
    ensures var s := Run(events, false).value;
      && s.checks == [] && s.networkCheck == None
      && (c < |s.calls| && Awaited(s.calls[c]).Some? ==> Awaited(s.calls[c]).value == None)
  {
    if events != [] {
      hide Step;
      NoGenesisNoChecks(events[..|events| - 1], c);
      NoGenesisStep(Run(events[..|events| - 1], false).value, events[|events| - 1], c);
    }
  }

  lemma NoGenesisStep(s: State, e: Event, c: nat)
    requires Step(s, e, false).Some? && s.checks == [] && s.networkCheck == None
    ensures var t := Step(s, e, false).value;
      && t.checks == [] && t.networkCheck == None
      && (c < |s.calls| ==> c < |t.calls|)
      && (c < |t.calls| && Awaited(t.calls[c]).Some? ==>
            Awaited(t.calls[c]) == Some(None) || (c < |s.calls| && t.calls[c] == s.calls[c]))
  {}

  // ---- the object ----

  /** The guarded object: its `networkCheck` field, what is in flight around it, and the run so far. */
  class GuardedClient {
    const expectsGenesis: bool
    var networkCheck: Option<nat>
    var checks: seq<Check>
    var calls: seq<Pc>
    var log: seq<Effect>
    ghost var history: seq<Event>

    function Abstract(): State
      reads this
    {
      State(networkCheck, checks, calls, log)
    }

    /** The object's state is where its run leads. */
    ghost predicate Valid()
      reads this
    {
      Run(history, expectsGenesis) == Some(Abstract())
    }

    constructor (expectsGenesis: bool)
      ensures Valid() && this.expectsGenesis == expectsGenesis && history == [] && Abstract() == INITIAL
    {
      this.expectsGenesis := expectsGenesis;
      networkCheck, checks, calls, log, history := None, [], [], [], [];
    }

    /** What the guard guarantees of every object at any time. */
    lemma Guarantee()
      requires Valid() && expectsGenesis
      ensures Guarded(log)
      ensures forall k :: 0 <= k < |checks| && networkCheck != Some(k) ==> checks[k] == Rejected
      ensures networkCheck.Some? ==> networkCheck.value < |checks| && checks[networkCheck.value] != Rejected
      ensures forall j :: 0 <= j < |log| && log[j].TransactionSent? ==>
                var c := log[j].call;
                c < |Kinds(history)|
                && (Kinds(history)[c] == Send
                    || (Kinds(history)[c] == Claim && ViewedBefore(log, j, c) && WasOwed(history, c)))
      ensures forall c: nat :: Tells(Abstract(), Kinds(history), c, Facts(history, true, c))
    {
      hide Run, Kinds, Guarded, Tells, Facts;
      RunKeeps(history);
      StoryHolds(history, true);
      forall c: nat ensures Tells(Abstract(), Kinds(history), c, Facts(history, true, c)) {
        EveryCallIsTold(history, true, c);
      }
    }

    /** One more event of a run leads to what the step says. */
    lemma Extended(e: Event)
      requires Valid()
      ensures Run(history + [e], expectsGenesis) == Step(Abstract(), e, expectsGenesis)
    {
      assert (history + [e])[..|history|] == history;
    }

    /** CitrateClient lines 221-231, refunds lines 128-154 */
    method VerifyNetwork() returns (awaiting: Option<nat>)
      modifies this
      ensures (Abstract(), awaiting) == Verified(old(Abstract()), expectsGenesis) && history == old(history)
    {
      if !expectsGenesis {
        return None;
      }
      if networkCheck.None? {
        checks := checks + [InFlight];
        networkCheck := Some(|checks| - 1);
      }
      return networkCheck;
    }

    method StartCall(kind: Kind)
      requires Valid()
      modifies this
      ensures Valid() && history == old(history) + [Start(kind)]
      ensures Step(old(Abstract()), Start(kind), expectsGenesis) == Some(Abstract())
    {
      hide Run;
      Extended(Start(kind));
      history := history + [Start(kind)];
      var check := VerifyNetwork();
      calls := calls + [Verifying(kind, check)];
    }

    method AssertionSettles(k: nat, ok: bool)
      requires Valid()
      requires k < |checks| && checks[k] == InFlight
      modifies this
      ensures Valid() && history == old(history) + [Settle(k, ok)]
      ensures Step(old(Abstract()), Settle(k, ok), expectsGenesis) == Some(Abstract())
    {
      hide Run;
      Extended(Settle(k, ok));
      history := history + [Settle(k, ok)];
      if ok {
        checks := checks[k := Fulfilled];
        log := log + [CheckSucceeded(k)];
      } else {
        checks := checks[k := Rejecting];
      }
    }

    /** CitrateClient lines 225-228, refunds lines 148-151 */
    method CatchHandler(k: nat)
      requires Valid()
      requires k < |checks| && checks[k] == Rejecting
      modifies this
      ensures Valid() && history == old(history) + [Catch(k)]
      ensures Step(old(Abstract()), Catch(k), expectsGenesis) == Some(Abstract())
    {
      hide Run;
      Extended(Catch(k));
      history := history + [Catch(k)];
      networkCheck := None;
      checks := checks[k := Rejected];
    }

    /** The code after an await on the check, up to the next await. */
    method ResumeCall(c: nat)
      requires Valid()
      requires c < |calls| && Awaited(calls[c]).Some? && Outcome(Abstract(), Awaited(calls[c]).value).Some?
      modifies this
      ensures Valid() && history == old(history) + [Resume(c)]
      ensures Step(old(Abstract()), Resume(c), expectsGenesis) == Some(Abstract())
    {
      hide Run;
      Extended(Resume(c));
      history := history + [Resume(c)];
      if Outcome(Abstract(), Awaited(calls[c]).value) == Some(false) {
        calls := calls[c := Failed];
        return;
      }
      if calls[c].VerifyingView? || calls[c].kind == View {
        log := log + [ViewCalled(c)];
        calls := calls[c := Viewing(calls[c].VerifyingView?)];
      } else if calls[c].kind == Send {
        log := log + [TransactionSent(c)];
        calls := calls[c := Succeeded];
      } else if calls[c].kind == Claim {
        calls := calls[c := Addressing];
      } else {
        calls := calls[c := Succeeded];
      }
    }

    /** refunds line 188, with the start of the view in lines 156-157 */
    method AddressArrives(c: nat, ok: bool)
      requires Valid()
      requires c < |calls| && calls[c] == Addressing
      modifies this
      ensures Valid() && history == old(history) + [Address(c, ok)]
      ensures Step(old(Abstract()), Address(c, ok), expectsGenesis) == Some(Abstract())
    {
      hide Run;
      Extended(Address(c, ok));
      history := history + [Address(c, ok)];
      if !ok {
        calls := calls[c := Failed];
        return;
      }
      var check := VerifyNetwork();
      calls := calls[c := VerifyingView(check)];
    }

    /** refunds lines 159-161 and 188-189 */
    method ViewAnswers(c: nat, amount: Option<nat>)
      requires Valid()
      requires c < |calls| && calls[c].Viewing?
      modifies this
      ensures Valid() && history == old(history) + [Owed(c, amount)]
      ensures Step(old(Abstract()), Owed(c, amount), expectsGenesis) == Some(Abstract())
    {
      hide Run;
      Extended(Owed(c, amount));
      history := history + [Owed(c, amount)];
      if amount.None? {
        calls := calls[c := Failed];
      } else if !calls[c].claiming {
        calls := calls[c := Succeeded];
      } else if amount.value == 0 {
        calls := calls[c := NothingOwed];
      } else {
        log := log + [TransactionSent(c)];
        calls := calls[c := Succeeded];
      }
    }
  }
}

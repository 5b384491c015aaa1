/**
 * src/client/WebSocketClient.ts: pending requests, their timers, and bounded
 * reconnects. Every handler runs to its end before the next one, so a run is a
 * sequence of handler calls in any order the runtime can produce.
 */
module WebSocketClient {
  import opened Wrappers
  import opened Text

  datatype Ready = Connecting | Open | Closing | Closed

  /** An entry of `pendingRequests`, a map that keeps insertion order. */
  datatype Request = Request(id: jstring, timer: nat)

  datatype Outcome = Resolved | RejectedByPeer | TimedOut | ConnectionClosed | SendThrew

  /** A call of a request's `resolve` or `reject`; the promise takes the first one. */
  datatype Settlement = Settlement(request: nat, outcome: Outcome)

  datatype State = State(
    ws: Option<nat>, sockets: seq<Ready>, isConnecting: bool, connectTimers: nat,
    reconnectAttempts: int, reconnectTimers: nat,
    messageId: nat, pending: seq<Request>, armed: set<nat>, log: seq<Settlement>)

  /** What can happen; `throws` says whether `new WebSocket` or `send` throws, if it is reached. */
  datatype Event =
    | Connect(throws: bool)
    | ConnectionTimeout
    | Opens(socket: nat)
    | Closes(socket: nat, wasClean: bool)
    | Errors(socket: nat)
    | ReconnectFires(throws: bool)
    | Disconnect
    | Send(throws: bool)
    | Message(id: jstring, isError: bool)
    | TimerFires(request: nat)

  const INITIAL := State(None, [], false, 0, 0, 0, 0, [], {}, [])

  /** The id of the n-th request. */
  function Id(n: nat): jstring { Numeral(n, 10) }

  predicate IsConnected(s: State) {
    s.ws.Some? && s.ws.value < |s.sockets| && s.sockets[s.ws.value] == Open
  }

  /** The position of an id among the pending requests, or their number. */
  function Find(pending: seq<Request>, id: jstring): (i: nat)
    ensures i <= |pending|
    ensures i < |pending| ==> pending[i].id == id
    ensures forall k :: 0 <= k < i ==> pending[k].id != id
  {
    if pending == [] || pending[0].id == id then 0 else 1 + Find(pending[1..], id)
  }

  function Without(pending: seq<Request>, i: nat): seq<Request>
    requires i < |pending|
  {
    pending[..i] + pending[i + 1..]
  }

  function Timers(pending: seq<Request>): set<nat> { set r | r in pending :: r.timer }

  function Closings(pending: seq<Request>): (r: seq<Settlement>)
    ensures |r| == |pending|
    ensures forall i :: 0 <= i < |r| ==> r[i] == Settlement(pending[i].timer, ConnectionClosed)
  {
    seq(|pending|, i requires 0 <= i < |pending| => Settlement(pending[i].timer, ConnectionClosed))
  }

  // ---- the handlers, as functions on states ----

  function Connected(s: State, throws: bool): State {
    if IsConnected(s) || s.isConnecting || throws then s
    else s.(isConnecting := true, sockets := s.sockets + [Connecting], ws := Some(|s.sockets|),
                connectTimers := s.connectTimers + 1)
  }

  function AfterClose(s: State, i: nat, wasClean: bool, bound: int): State
    requires i < |s.sockets|
  {
    var t := s.(isConnecting := false, sockets := s.sockets[i := Closed]);
    if !wasClean && t.reconnectAttempts < bound
    then t.(reconnectAttempts := t.reconnectAttempts + 1, reconnectTimers := t.reconnectTimers + 1)
    else t
  }

  function Disconnected(s: State): State {
    s.(ws := None,
       sockets := if s.ws.Some? && s.ws.value < |s.sockets| && s.sockets[s.ws.value] != Closed
                  then s.sockets[s.ws.value := Closing] else s.sockets,
       pending := [],
       armed := s.armed - Timers(s.pending),
       log := s.log + Closings(s.pending))
  }

  function Sent(s: State, throws: bool): State {
    if !IsConnected(s) then s
    else
      var n := s.messageId + 1;
      s.(messageId := n, pending := s.pending + [Request(Id(n), n)], armed := s.armed + {n},
         log := if throws then s.log + [Settlement(n, SendThrew)] else s.log)
  }

  function Received(s: State, id: jstring, isError: bool): State {
    var i := Find(s.pending, id);
    if id == [] || i == |s.pending| then s
    else
      var n := s.pending[i].timer;
      s.(pending := Without(s.pending, i), armed := s.armed - {n},
         log := s.log + [Settlement(n, if isError then RejectedByPeer else Resolved)])
  }

  function Fired(s: State, n: nat): State {
    var i := Find(s.pending, Id(n));
    s.(pending := if i < |s.pending| then Without(s.pending, i) else s.pending,
       armed := s.armed - {n}, log := s.log + [Settlement(n, TimedOut)])
  }

  /** The state after a handler; none when the runtime would not call it now. */
  function Step(s: State, e: Event, bound: int): Option<State> {
    match e
    case Connect(throws) => Some(Connected(s, throws))
    case ConnectionTimeout =>
      if s.connectTimers > 0 then Some(s.(isConnecting := false, connectTimers := s.connectTimers - 1)) else None
    case Opens(i) =>
      if i < |s.sockets| && s.sockets[i] == Connecting
      then Some(s.(isConnecting := false, reconnectAttempts := 0, sockets := s.sockets[i := Open]))
      else None
    case Closes(i, wasClean) =>
      if i < |s.sockets| && s.sockets[i] != Closed then Some(AfterClose(s, i, wasClean, bound)) else None
    case Errors(i) =>
      if i < |s.sockets| && s.sockets[i] != Closed then Some(s.(isConnecting := false)) else None
    case ReconnectFires(throws) =>
      if s.reconnectTimers == 0 then None
      else
        var t := s.(reconnectTimers := s.reconnectTimers - 1);
        Some(if t.reconnectAttempts <= bound then Connected(t, throws) else t)
    case Disconnect => Some(Disconnected(s))
    case Send(throws) => Some(Sent(s, throws))
    case Message(id, isError) => Some(Received(s, id, isError))
    case TimerFires(n) => if n in s.armed then Some(Fired(s, n)) else None
  }

  function Run(events: seq<Event>, bound: int): Option<State> {
    if events == [] then Some(INITIAL)
    else
      var before := Run(events[..|events| - 1], bound);
      if before.None? then None else Step(before.value, events[|events| - 1], bound)
  }

  lemma RunStart(events: seq<Event>, bound: int)
    ensures Run(events[..0], bound) == Some(INITIAL)
  {}

  lemma RunNext(events: seq<Event>, k: nat, bound: int)
    requires k < |events| && Run(events[..k], bound).Some?
    ensures Run(events[..k + 1], bound) == Step(Run(events[..k], bound).value, events[k], bound)
  {
    hide Step;
    assert events[..k + 1][..k] == events[..k];
  }

  // ---- what every run keeps ----

  /** How often a request's `resolve` or `reject` was called. */
  function Settlements(log: seq<Settlement>, n: nat): nat {
    if log == [] then 0
    else Settlements(log[..|log| - 1], n) + (if log[|log| - 1].request == n then 1 else 0)
  }

  ghost predicate Threw(log: seq<Settlement>, n: nat) { Settlement(n, SendThrew) in log }

  /** Pending requests are issued ones in order, under their own ids, each with its timer armed. */
  ghost predicate PendingArmed(s: State) {
    && (forall i :: 0 <= i < |s.pending| ==>
          1 <= s.pending[i].timer <= s.messageId && s.pending[i].id == Id(s.pending[i].timer))
    && (forall i, j :: 0 <= i < j < |s.pending| ==> s.pending[i].timer < s.pending[j].timer)
    && s.armed == Timers(s.pending)
  }

  /** One settlement once the timer is gone, one more if the send threw. */
  ghost predicate SettledOnce(s: State) {
    forall n: nat ::
      Settlements(s.log, n) ==
        (if 1 <= n <= s.messageId && n !in s.armed then 1 else 0)
        + (if 1 <= n <= s.messageId && Threw(s.log, n) then 1 else 0)
  }

  predicate Bounded(s: State, bound: int) {
    0 <= s.reconnectAttempts <= (if bound > 0 then bound else 0)
    && (s.reconnectTimers > 0 ==> bound > 0)
    && (s.isConnecting ==> s.connectTimers > 0)
  }

  ghost predicate Invariant(s: State, bound: int) {
    PendingArmed(s) && SettledOnce(s) && Bounded(s, bound)
  }

  lemma {:induction false} SettlementsAppend(log: seq<Settlement>, more: seq<Settlement>, n: nat)
    ensures Settlements(log + more, n) == Settlements(log, n) + Settlements(more, n)
    decreases |more|
  {
    if more == [] {
      assert log + more == log;
    } else {
      assert (log + more)[..|log + more| - 1] == log + more[..|more| - 1];
      SettlementsAppend(log, more[..|more| - 1], n);
    }
  }

  lemma SettlementsOne(e: Settlement, n: nat)
    ensures Settlements([e], n) == if e.request == n then 1 else 0
  {
    assert [e][..0] == [];
  }

  lemma IdInjective(m: nat, n: nat)
    ensures Id(m) == Id(n) <==> m == n
  {
    if Id(m) == Id(n) { NumeralInjective(m, n, 10); }
  }

  /** The pending requests' ids are those of the armed timers. */
  lemma FindTimer(s: State, n: nat)
    requires PendingArmed(s)
    ensures var i := Find(s.pending, Id(n));
            && (n in s.armed <==> i < |s.pending|)
            && (i < |s.pending| ==> s.pending[i].timer == n)
  {
    var i := Find(s.pending, Id(n));
    if i < |s.pending| {
      IdInjective(s.pending[i].timer, n);
      assert s.pending[i] in s.pending;
    }
    if n in s.armed {
      var r :| r in s.pending && r.timer == n;
    }
  }

  lemma TimersWithout(pending: seq<Request>, i: nat)
    requires i < |pending| && forall j, k :: 0 <= j < k < |pending| ==> pending[j].timer < pending[k].timer
    ensures Timers(Without(pending, i)) == Timers(pending) - {pending[i].timer}
  {
    var before, x, after := pending[..i], pending[i], pending[i + 1..];
    assert pending == (before + [x]) + after;
    assert Timers([x]) == {x.timer};
    assert forall r :: r in before ==> r.timer < x.timer;
    assert forall r :: r in after ==> x.timer < r.timer;
  }

  /** Taking one request out of the pending ones and disarming its timer. */
  lemma TakeOut(s: State, i: nat)
    requires PendingArmed(s) && i < |s.pending|
    ensures PendingArmed(s.(pending := Without(s.pending, i), armed := s.armed - {s.pending[i].timer}))
  {
    TimersWithout(s.pending, i);
    hide Timers, Id;
  }

  lemma SettleOne(s: State, i: nat, outcome: Outcome)
    requires PendingArmed(s) && SettledOnce(s) && i < |s.pending| && outcome != SendThrew
    ensures var n := s.pending[i].timer;
            var t := s.(pending := Without(s.pending, i), armed := s.armed - {n}, log := s.log + [Settlement(n, outcome)]);
            PendingArmed(t) && SettledOnce(t)
  {
    var n := s.pending[i].timer;
    TakeOut(s, i);
    assert s.pending[i] in s.pending && n in s.armed;
    forall m: nat
      ensures Settlements(s.log + [Settlement(n, outcome)], m) == Settlements(s.log, m) + (if m == n then 1 else 0)
    {
      SettlementsAppend(s.log, [Settlement(n, outcome)], m);
    }
  }

  ghost predicate AmongTimers(pending: seq<Request>, n: nat) { exists i :: 0 <= i < |pending| && pending[i].timer == n }

  lemma AmongLast(pending: seq<Request>, n: nat)
    requires pending != [] && forall i, j :: 0 <= i < j < |pending| ==> pending[i].timer < pending[j].timer
    ensures var init, last := pending[..|pending| - 1], pending[|pending| - 1];
            && (AmongTimers(pending, n) <==> AmongTimers(init, n) || last.timer == n)
            && !(AmongTimers(init, n) && last.timer == n)
            && Closings(pending)[..|pending| - 1] == Closings(init)
  {
    var init := pending[..|pending| - 1];
    assert forall i :: 0 <= i < |init| ==> init[i] == pending[i];
  }

  lemma {:induction false} ClosingsOnce(pending: seq<Request>, n: nat)
    requires forall i, j :: 0 <= i < j < |pending| ==> pending[i].timer < pending[j].timer
    ensures Settlements(Closings(pending), n) == if AmongTimers(pending, n) then 1 else 0
    decreases |pending|
  {
    hide Closings;
    if pending != [] {
      ClosingsOnce(pending[..|pending| - 1], n);
      AmongLast(pending, n);
      hide AmongTimers;
    }
  }

  /** Closing settles exactly the armed requests, each once more. */
  lemma ClosingSettles(s: State, n: nat)
    requires PendingArmed(s)
    ensures Settlements(s.log + Closings(s.pending), n) == Settlements(s.log, n) + (if n in s.armed then 1 else 0)
    ensures n in s.armed ==> 1 <= n <= s.messageId
  {
    SettlementsAppend(s.log, Closings(s.pending), n);
    ClosingsOnce(s.pending, n);
    hide Settlements, Closings;
    if n in s.armed {
      var r :| r in s.pending && r.timer == n;
      var i :| 0 <= i < |s.pending| && s.pending[i] == r;
    }
    if i :| 0 <= i < |s.pending| && s.pending[i].timer == n { assert s.pending[i] in s.pending; }
  }

  lemma ClosingThrowsNothing(s: State, n: nat)
    ensures Threw(s.log + Closings(s.pending), n) <==> Threw(s.log, n)
  {}

  lemma DisconnectKeeps(s: State)
    requires PendingArmed(s) && SettledOnce(s)
    ensures PendingArmed(Disconnected(s)) && SettledOnce(Disconnected(s)) && Disconnected(s).armed == {}
  {
    hide Settlements, Closings, Threw;
    var t := Disconnected(s);
    assert t.armed == {};
    forall n: nat
      ensures Settlements(t.log, n) == Settlements(s.log, n) + (if n in s.armed then 1 else 0)
      ensures Threw(t.log, n) <==> Threw(s.log, n)
      ensures n in s.armed ==> 1 <= n <= s.messageId
    {
      ClosingSettles(s, n);
      ClosingThrowsNothing(s, n);
    }
  }

  lemma SendArms(s: State, throws: bool)
    requires PendingArmed(s)
    ensures PendingArmed(Sent(s, throws))
  {
    if IsConnected(s) {
      var n := s.messageId + 1;
      assert Timers([Request(Id(n), n)]) == {n};
      hide Timers, Id, Find, Closings;
      var t := Sent(s, throws);
      assert t.pending == s.pending + [Request(Id(n), n)];
      forall i | 0 <= i < |t.pending|
        ensures 1 <= t.pending[i].timer <= t.messageId && t.pending[i].id == Id(t.pending[i].timer)
      {
        if i < |s.pending| { assert t.pending[i] == s.pending[i]; }
      }
    }
  }

  lemma SendSettles(s: State, throws: bool, m: nat)
    requires IsConnected(s)
    ensures Settlements(Sent(s, throws).log, m) == Settlements(s.log, m) + (if throws && m == s.messageId + 1 then 1 else 0)
    ensures Threw(Sent(s, throws).log, m) <==> Threw(s.log, m) || (throws && m == s.messageId + 1)
  {
    var n := s.messageId + 1;
    SettlementsAppend(s.log, [Settlement(n, SendThrew)], m);
    SettlementsOne(Settlement(n, SendThrew), m);
  }

  lemma SendKeepsCount(s: State, throws: bool)
    requires SettledOnce(s) && IsConnected(s)
    ensures SettledOnce(Sent(s, throws))
  {
    hide Settlements, Threw;
    NotYetSettled(s, s.messageId + 1);
    forall m: nat
      ensures Settlements(Sent(s, throws).log, m) == Settlements(s.log, m) + (if throws && m == s.messageId + 1 then 1 else 0)
      ensures Threw(Sent(s, throws).log, m) <==> Threw(s.log, m) || (throws && m == s.messageId + 1)
    {
      SendSettles(s, throws, m);
    }
  }

  lemma SendKeeps(s: State, throws: bool)
    requires PendingArmed(s) && SettledOnce(s)
    ensures PendingArmed(Sent(s, throws)) && SettledOnce(Sent(s, throws))
  {
    hide PendingArmed, SettledOnce;
    SendArms(s, throws);
    if IsConnected(s) { SendKeepsCount(s, throws); }
  }

  /** Request numbers not issued yet do not occur in the log. */
  lemma NotYetSettled(s: State, n: nat)
    requires SettledOnce(s) && n > s.messageId
    ensures !Threw(s.log, n)
  {
    if Threw(s.log, n) {
      Occurs(s.log, Settlement(n, SendThrew));
    }
  }

  lemma {:induction false} Occurs(log: seq<Settlement>, e: Settlement)
    requires e in log
    ensures Settlements(log, e.request) > 0
  {
    var init := log[..|log| - 1];
    if e in init {
      Occurs(init, e);
    } else {
      assert log == init + [log[|log| - 1]];
    }
  }

  lemma MessageKeeps(s: State, id: jstring, isError: bool)
    requires PendingArmed(s) && SettledOnce(s)
    ensures PendingArmed(Received(s, id, isError)) && SettledOnce(Received(s, id, isError))
  {
    hide Settlements, Threw, PendingArmed, SettledOnce;
    var i := Find(s.pending, id);
    if id != [] && i < |s.pending| {
      SettleOne(s, i, if isError then RejectedByPeer else Resolved);
    }
  }

  lemma TimerKeeps(s: State, n: nat)
    requires PendingArmed(s) && SettledOnce(s) && n in s.armed
    ensures PendingArmed(Fired(s, n)) && SettledOnce(Fired(s, n))
  {
    hide Settlements, Threw, PendingArmed, SettledOnce;
    FindTimer(s, n);
    SettleOne(s, Find(s.pending, Id(n)), TimedOut);
  }

  predicate AboutRequests(e: Event) { e.Disconnect? || e.Send? || e.Message? || e.TimerFires? }

  /** The other handlers are about the connection, and leave the requests alone. */
  lemma ConnectionStep(s: State, e: Event, bound: int)
    requires Bounded(s, bound) && Step(s, e, bound).Some? && !AboutRequests(e)
    ensures var t := Step(s, e, bound).value;
            && Bounded(t, bound)
            && t.pending == s.pending && t.armed == s.armed && t.log == s.log && t.messageId == s.messageId
  {}

  /** And those leave the attempts alone. */
  lemma RequestStep(s: State, e: Event, bound: int)
    requires Bounded(s, bound) && Step(s, e, bound).Some? && AboutRequests(e)
    ensures Bounded(Step(s, e, bound).value, bound)
    ensures e.Disconnect? ==> Step(s, e, bound) == Some(Disconnected(s))
    ensures e.Send? ==> Step(s, e, bound) == Some(Sent(s, e.throws))
    ensures e.Message? ==> Step(s, e, bound) == Some(Received(s, e.id, e.isError))
    ensures e.TimerFires? ==> e.request in s.armed && Step(s, e, bound) == Some(Fired(s, e.request))
  {
    hide Find, Without, Timers, Closings, Id;
  }

  lemma StepKeeps(s: State, e: Event, bound: int)
    requires Invariant(s, bound) && Step(s, e, bound).Some?
    ensures Invariant(Step(s, e, bound).value, bound)
  {
    hide Settlements, Threw, PendingArmed, SettledOnce, Bounded, Step;
    if AboutRequests(e) {
      RequestStep(s, e, bound);
      match e
      case Disconnect => DisconnectKeeps(s);
      case Send(throws) => SendKeeps(s, throws);
      case Message(id, isError) => MessageKeeps(s, id, isError);
      case TimerFires(n) => TimerKeeps(s, n);
    } else {
      ConnectionStep(s, e, bound);
      ConnectionOnly(s, Step(s, e, bound).value);
    }
  }

  /** The connection handlers leave the requests alone. */
  lemma ConnectionOnly(s: State, t: State)
    requires t.pending == s.pending && t.armed == s.armed && t.log == s.log && t.messageId == s.messageId
    ensures PendingArmed(s) ==> PendingArmed(t)
    ensures SettledOnce(s) ==> SettledOnce(t)
  {}

  lemma {:induction false} RunKeeps(events: seq<Event>, bound: int)
    requires Run(events, bound).Some?
    ensures Invariant(Run(events, bound).value, bound)
  {
    if events == [] {
      assert INITIAL.armed == Timers(INITIAL.pending);
    } else {
      RunKeeps(events[..|events| - 1], bound);
      StepKeeps(Run(events[..|events| - 1], bound).value, events[|events| - 1], bound);
    }
  }

  // ---- the theorems ----

  /**
   * In every run: request ids are pairwise different; a request has its timer
   * armed exactly while it is pending; and its promise callbacks are called once,
   * after that, plus once more exactly when its send threw. The attempts stay in
   * the configured bound.
   */
  lemma RequestsSettleOnce(events: seq<Event>, bound: int)
    requires Run(events, bound).Some?
    ensures var s := Run(events, bound).value;
      && (forall m, n :: 1 <= m < n <= s.messageId ==> Id(m) != Id(n))
      && (forall n: nat :: n in s.armed <==> exists r :: r in s.pending && r.id == Id(n))
      && (forall n: nat :: 1 <= n <= s.messageId ==>
            Settlements(s.log, n) == (if n in s.armed then 0 else 1) + (if Threw(s.log, n) then 1 else 0))
      && (forall n: nat :: n > s.messageId ==> Settlements(s.log, n) == 0)
      && 0 <= s.reconnectAttempts <= (if bound > 0 then bound else 0)
  {
    RunKeeps(events, bound);
    var s := Run(events, bound).value;
    forall m, n | 1 <= m < n <= s.messageId ensures Id(m) != Id(n) {
      IdInjective(m, n);
    }
    forall n: nat ensures n in s.armed <==> exists r :: r in s.pending && r.id == Id(n) {
      FindTimer(s, n);
    }
  }

  /** The one event that settles an armed request n in this way. */
  predicate Causes(e: Event, n: nat, outcome: Outcome) {
    match outcome
    case Resolved => e == Message(Id(n), false)
    case RejectedByPeer => e == Message(Id(n), true)
    case TimedOut => e == TimerFires(n)
    case ConnectionClosed => e == Disconnect
    case SendThrew => false
  }

  predicate Settles(e: Event, n: nat) {
    e == Disconnect || e == TimerFires(n) || (e.Message? && e.id == Id(n))
  }

  /** The request that a `sendMessage` on the open socket issues. */
  predicate Issues(s: State, e: Event, n: nat) {
    e.Send? && s.ws.Some? && s.ws.value < |s.sockets| && s.sockets[s.ws.value] == Open && n == s.messageId + 1
  }

  /** What any event does to request n: it settles it if it causes that, issues it, or leaves it as it was. */
  ghost predicate OnlyItsOwn(s: State, e: Event, n: nat, t: State) {
    && (n in t.armed <==> (n in s.armed && !Settles(e, n)) || Issues(s, e, n))
    && (forall outcome :: outcome != SendThrew ==>
          (Settlement(n, outcome) in t.log <==> Settlement(n, outcome) in s.log || (n in s.armed && Causes(e, n, outcome))))
  }

  lemma DisconnectSettles(s: State, n: nat)
    requires PendingArmed(s)
    ensures OnlyItsOwn(s, Disconnect, n, Disconnected(s))
  {
    var closings := Closings(s.pending);
    assert Settlement(n, ConnectionClosed) in closings <==> n in s.armed by { ClosingsOfArmed(s, n); }
    assert forall x :: x in closings ==> x.outcome == ConnectionClosed;
    assert s.armed - Timers(s.pending) == {};
    hide Closings, Timers, PendingArmed;
  }

  lemma ClosingsOfArmed(s: State, n: nat)
    requires PendingArmed(s)
    ensures Settlement(n, ConnectionClosed) in Closings(s.pending) <==> n in s.armed
  {
    hide Id;
    var closings := Closings(s.pending);
    if n in s.armed {
      var r :| r in s.pending && r.timer == n;
      var i :| 0 <= i < |s.pending| && s.pending[i] == r;
      assert closings[i] == Settlement(n, ConnectionClosed);
    }
    if i :| 0 <= i < |closings| && closings[i] == Settlement(n, ConnectionClosed) {
      assert s.pending[i] in s.pending;
    }
  }

  lemma NamedSettles(s: State, m: nat, isError: bool, n: nat, t: State)
    requires m in s.armed && t.armed == s.armed - {m}
    requires t.log == s.log + [Settlement(m, if isError then RejectedByPeer else Resolved)]
    ensures OnlyItsOwn(s, Message(Id(m), isError), n, t)
  {
    IdInjective(m, n);
    hide Id;
  }

  lemma UnnamedSettles(s: State, id: jstring, isError: bool, n: nat)
    requires n in s.armed ==> Id(n) != id
    ensures OnlyItsOwn(s, Message(id, isError), n, s)
  {
    hide Id;
  }

  lemma MessageSettles(s: State, id: jstring, isError: bool, n: nat)
    requires PendingArmed(s)
    ensures OnlyItsOwn(s, Message(id, isError), n, Received(s, id, isError))
  {
    hide Without, Id, OnlyItsOwn;
    var i := Find(s.pending, id);
    if id != [] && i < |s.pending| {
      assert s.pending[i] in s.pending;
      NamedSettles(s, s.pending[i].timer, isError, n, Received(s, id, isError));
    } else {
      IdNotEmpty(n);
      FindTimer(s, n);
      UnnamedSettles(s, id, isError, n);
    }
  }

  lemma IdNotEmpty(n: nat)
    ensures Id(n) != []
  {}

  lemma TimerSettles(s: State, m: nat, n: nat)
    requires PendingArmed(s) && m in s.armed
    ensures OnlyItsOwn(s, TimerFires(m), n, Fired(s, m))
  {
    hide Without, Timers, Closings, PendingArmed;
  }

  lemma SendIssues(s: State, throws: bool, n: nat)
    requires PendingArmed(s)
    ensures OnlyItsOwn(s, Send(throws), n, Sent(s, throws))
  {
    hide Timers, Closings, PendingArmed;
  }

  lemma ConnectionSettlesNothing(s: State, e: Event, n: nat, t: State)
    requires !AboutRequests(e) && t.armed == s.armed && t.log == s.log
    ensures OnlyItsOwn(s, e, n, t)
  {}

  lemma EventSettles(s: State, e: Event, bound: int, n: nat)
    requires Invariant(s, bound) && Step(s, e, bound).Some?
    ensures OnlyItsOwn(s, e, n, Step(s, e, bound).value)
  {
    hide PendingArmed, SettledOnce, Bounded, Step, OnlyItsOwn;
    if AboutRequests(e) {
      RequestStep(s, e, bound);
      match e
      case Disconnect => DisconnectSettles(s, n);
      case Send(throws) => SendIssues(s, throws, n);
      case Message(id, isError) => MessageSettles(s, id, isError, n);
      case TimerFires(m) => TimerSettles(s, m, n);
    } else {
      ConnectionStep(s, e, bound);
      ConnectionSettlesNothing(s, e, n, Step(s, e, bound).value);
    }
  }

  /** Some event of the run found request n armed and causes this outcome. */
  ghost predicate Caused(events: seq<Event>, bound: int, n: nat, outcome: Outcome) {
    exists k :: 0 <= k < |events| && CausedAt(events, k, bound, n, outcome)
  }

  ghost predicate CausedAt(events: seq<Event>, k: nat, bound: int, n: nat, outcome: Outcome)
    requires k < |events|
  {
    && Causes(events[k], n, outcome)
    && Run(events[..k], bound).Some? && n in Run(events[..k], bound).value.armed
  }

  lemma CausedByLast(events: seq<Event>, bound: int, n: nat, outcome: Outcome)
    requires events != []
    ensures var init := events[..|events| - 1];
            Caused(events, bound, n, outcome) <==>
              Caused(init, bound, n, outcome) || CausedAt(events, |events| - 1, bound, n, outcome)
  {
    hide Causes, Run;
    var init := events[..|events| - 1];
    assert forall k :: 0 <= k < |init| ==> init[..k] == events[..k] && init[k] == events[k];
    forall k | 0 <= k < |init| ensures CausedAt(events, k, bound, n, outcome) <==> CausedAt(init, k, bound, n, outcome) {}
  }

  /**
   * In every run a request is resolved exactly if a response with its id and no
   * error came while it was armed, rejected by the peer exactly if one with an
   * error did, timed out exactly if its own timer fired, and closed exactly if
   * `disconnect` was called while it was armed.
   */
  lemma {:induction false} SettledBecause(events: seq<Event>, bound: int, n: nat, outcome: Outcome)
    requires Run(events, bound).Some? && outcome != SendThrew
    ensures Settlement(n, outcome) in Run(events, bound).value.log <==> Caused(events, bound, n, outcome)
  {
    if events != [] {
      hide Step, Causes, Settles, Issues;
      var init := events[..|events| - 1];
      SettledBecause(init, bound, n, outcome);
      RunKeeps(init, bound);
      EventSettles(Run(init, bound).value, events[|events| - 1], bound, n);
      CausedByLast(events, bound, n, outcome);
    }
  }

  /** A response settles the request it names, if that is armed, and leaves everything else as it is. */
  lemma ResponseSettlesItsRequest(s: State, n: nat, isError: bool, bound: int)
    requires Invariant(s, bound)
    ensures var t := Step(s, Message(Id(n), isError), bound);
      && t.Some? && Invariant(t.value, bound)
      && t.value == s.(pending := t.value.pending, armed := t.value.armed, log := t.value.log)
      && t.value.armed == s.armed - {n}
      && (forall r :: r in t.value.pending <==> r in s.pending && r.id != Id(n))
      && t.value.log == s.log + (if n !in s.armed then []
                                 else [Settlement(n, if isError then RejectedByPeer else Resolved)])
  {
    IdNotEmpty(n);
    hide Invariant, Id, Without, Find;
    Split(s, bound);
    StepKeeps(s, Message(Id(n), isError), bound);
    hide Step, PendingArmed;
    FindTimer(s, n);
    ReceivedIs(s, Id(n), isError, bound);
    var i := Find(s.pending, Id(n));
    if i < |s.pending| {
      OthersStay(s, i);
    } else {
      assert s.armed - {n} == s.armed && s.log + [] == s.log;
      NoneNamed(s.pending, Id(n));
    }
  }

  lemma NoneNamed(pending: seq<Request>, id: jstring)
    requires Find(pending, id) == |pending|
    ensures forall r :: r in pending ==> r.id != id
  {}

  lemma ReceivedIs(s: State, id: jstring, isError: bool, bound: int)
    requires id != []
    ensures var i, t := Find(s.pending, id), Step(s, Message(id, isError), bound);
            t == Some(if i == |s.pending| then s else
                        s.(pending := Without(s.pending, i), armed := s.armed - {s.pending[i].timer},
                           log := s.log + [Settlement(s.pending[i].timer, if isError then RejectedByPeer else Resolved)]))
  {
    hide Without;
  }

  lemma Split(s: State, bound: int)
    requires Invariant(s, bound)
    ensures PendingArmed(s) && SettledOnce(s) && Bounded(s, bound)
  {}

  lemma OthersStay(s: State, i: nat)
    requires PendingArmed(s) && i < |s.pending|
    ensures forall r :: r in Without(s.pending, i) <==> r in s.pending && r.id != s.pending[i].id
  {
    var before, x, after := s.pending[..i], s.pending[i], s.pending[i + 1..];
    assert s.pending == (before + [x]) + after;
    forall k | 0 <= k < |s.pending| && k != i ensures s.pending[k].id != x.id {
      IdInjective(s.pending[k].timer, x.timer);
    }
  }

  /** A response that names no armed request changes nothing. */
  lemma UnknownResponse(s: State, id: jstring, isError: bool, bound: int)
    requires Invariant(s, bound) && forall n: nat :: n in s.armed ==> Id(n) != id
    ensures Step(s, Message(id, isError), bound) == Some(s)
  {
    hide SettledOnce, Bounded, Id;
    forall r | r in s.pending ensures r.id != id {
      var i :| 0 <= i < |s.pending| && s.pending[i] == r;
      assert r.timer in s.armed && r.id == Id(r.timer);
    }
    assert Find(s.pending, id) == |s.pending|;
  }

  /** A response settles the armed request with this id, or nothing changes. */
  ghost predicate Answered(s: State, id: jstring, isError: bool, t: State) {
    && (forall n: nat :: n in s.armed && id == Id(n) ==>
          && t.armed == s.armed - {n}
          && t.log == s.log + [Settlement(n, if isError then RejectedByPeer else Resolved)]
          && forall r :: r in t.pending <==> r in s.pending && r.id != id)
    && ((forall n: nat :: n in s.armed ==> Id(n) != id) ==> t == s)
  }

  lemma ResponseLaw(s: State, id: jstring, isError: bool, bound: int)
    requires Invariant(s, bound)
    ensures Step(s, Message(id, isError), bound).Some?
    ensures Answered(s, id, isError, Step(s, Message(id, isError), bound).value)
  {
    hide Invariant, Id, Received;
    if n: nat :| n in s.armed && id == Id(n) {
      ResponseSettlesItsRequest(s, n, isError, bound);
      forall m: nat | Id(m) == id ensures m == n { IdInjective(m, n); }
    } else {
      UnknownResponse(s, id, isError, bound);
    }
  }

  // ---- reconnects over a run ----

  /** The unclean closes since a socket last opened. */
  function Breaks(events: seq<Event>): nat {
    if events == [] then 0
    else
      match events[|events| - 1]
      case Opens(_) => 0
      case Closes(_, wasClean) => Breaks(events[..|events| - 1]) + (if wasClean then 0 else 1)
      case _ => Breaks(events[..|events| - 1])
  }

  /** The close at k is unclean and finds fewer than `bound` of them before it. */
  predicate Schedules(events: seq<Event>, k: nat, bound: int)
    requires k < |events|
  {
    events[k].Closes? && !events[k].wasClean && Breaks(events[..k]) < bound
  }

  function Scheduled(events: seq<Event>, bound: int): set<int> {
    set k | 0 <= k < |events| && Schedules(events, k, bound)
  }

  function Fires(events: seq<Event>): set<int> { set k | 0 <= k < |events| && events[k].ReconnectFires? }

  lemma NextScheduled(events: seq<Event>, bound: int)
    requires events != []
    ensures |Scheduled(events, bound)| ==
            |Scheduled(events[..|events| - 1], bound)| + (if Schedules(events, |events| - 1, bound) then 1 else 0)
  {
    var init, last := events[..|events| - 1], |events| - 1;
    forall k | 0 <= k < last ensures Schedules(events, k, bound) <==> Schedules(init, k, bound) {
      assert init[..k] == events[..k];
    }
    hide Schedules;
    assert Scheduled(events, bound) == Scheduled(init, bound) + (if Schedules(events, last, bound) then {last} else {});
    assert last !in Scheduled(init, bound);
  }

  lemma NextFires(events: seq<Event>)
    requires events != []
    ensures |Fires(events)| == |Fires(events[..|events| - 1])| + (if events[|events| - 1].ReconnectFires? then 1 else 0)
  {
    var init, last := events[..|events| - 1], |events| - 1;
    assert Fires(events) == Fires(init) + (if events[last].ReconnectFires? then {last} else {});
    assert last !in Fires(init);
  }

  /**
   * In every run the attempts are the unclean closes since the last opening, up to
   * the bound, and there is one reconnect timer for each of them that was within it.
   */
  lemma {:induction false} ReconnectsAreBounded(events: seq<Event>, bound: int)
    requires Run(events, bound).Some?
    ensures var s, most := Run(events, bound).value, if bound > 0 then bound else 0;
      && s.reconnectAttempts == (if Breaks(events) < most then Breaks(events) else most)
      && s.reconnectTimers == |Scheduled(events, bound)| - |Fires(events)|
  {
    if events == [] {
      assert Scheduled(events, bound) == {} && Fires(events) == {};
    } else {
      var init := events[..|events| - 1];
      ReconnectsAreBounded(init, bound);
      hide Scheduled, Fires, Run;
      RunLast(events, bound);
      AttemptStep(Run(init, bound).value, events, bound);
      NextScheduled(events, bound);
      NextFires(events);
    }
  }

  lemma RunLast(events: seq<Event>, bound: int)
    requires events != [] && Run(events, bound).Some?
    ensures var init := events[..|events| - 1];
            Run(init, bound).Some? && Run(events, bound) == Step(Run(init, bound).value, events[|events| - 1], bound)
  {}

  lemma AttemptStep(s: State, events: seq<Event>, bound: int)
    requires events != [] && Step(s, events[|events| - 1], bound).Some?
    requires var b, most := Breaks(events[..|events| - 1]), if bound > 0 then bound else 0;
             s.reconnectAttempts == if b < most then b else most
    ensures var t, most, e := Step(s, events[|events| - 1], bound).value, if bound > 0 then bound else 0, events[|events| - 1];
      && t.reconnectAttempts == (if Breaks(events) < most then Breaks(events) else most)
      && t.reconnectTimers == s.reconnectTimers + (if Schedules(events, |events| - 1, bound) then 1 else 0)
                              - (if e.ReconnectFires? then 1 else 0)
  {
    hide Step;
    AttemptLaw(s, events[|events| - 1], bound);
  }

  lemma AttemptLaw(s: State, e: Event, bound: int)
    requires Step(s, e, bound).Some?
    ensures var t := Step(s, e, bound).value;
      && (e.Opens? ==> t.reconnectAttempts == 0)
      && (!e.Opens? ==>
            t.reconnectAttempts == s.reconnectAttempts + (if e.Closes? && !e.wasClean && s.reconnectAttempts < bound then 1 else 0))
      && t.reconnectTimers == s.reconnectTimers + (if e.Closes? && !e.wasClean && s.reconnectAttempts < bound then 1 else 0)
                              - (if e.ReconnectFires? then 1 else 0)
  {
    hide Find, Without, Timers, Closings, Id, IsConnected;
  }

  /** For every request issued so far, in order, whether its send threw. */
  function Issued(events: seq<Event>, bound: int): seq<bool> {
    if events == [] then []
    else
      var init, e := events[..|events| - 1], events[|events| - 1];
      Issued(init, bound)
      + (if e.Send? && Run(init, bound).Some? && IsConnected(Run(init, bound).value) then [e.throws] else [])
  }

  /** The log tells of a throw exactly for the requests whose send threw. */
  ghost predicate ThrowsLogged(s: State, issued: seq<bool>) {
    && s.messageId == |issued|
    && forall n: nat :: Threw(s.log, n) <==> 1 <= n <= |issued| && issued[n - 1]
  }

  lemma ThrowsGrow(log: seq<Settlement>, more: seq<Settlement>, n: nat)
    ensures Threw(log + more, n) <==> Threw(log, n) || Threw(more, n)
  {}

  lemma NoThrows(s: State, more: seq<Settlement>)
    requires forall i :: 0 <= i < |more| ==> more[i].outcome != SendThrew
    ensures forall n: nat :: Threw(s.log + more, n) <==> Threw(s.log, n)
  {
    forall n: nat ensures Threw(s.log + more, n) <==> Threw(s.log, n) { ThrowsGrow(s.log, more, n); }
  }

  lemma StepThrows(s: State, e: Event, bound: int, issued: seq<bool>)
    requires ThrowsLogged(s, issued) && Step(s, e, bound).Some?
    ensures ThrowsLogged(Step(s, e, bound).value, issued + (if e.Send? && IsConnected(s) then [e.throws] else []))
  {
    assert issued + [] == issued;
    if e.Send? && IsConnected(s) {
      SendThrows(s, e.throws, issued);
    } else {
      var t := Step(s, e, bound).value;
      var more := t.log[|s.log|..];
      assert t.log == s.log + more;
      NoThrows(s, more);
      hide Threw;
    }
  }

  lemma SendThrows(s: State, throws: bool, issued: seq<bool>)
    requires ThrowsLogged(s, issued) && IsConnected(s)
    ensures ThrowsLogged(Sent(s, throws), issued + [throws])
  {
    var m := s.messageId + 1;
    var more := if throws then [Settlement(m, SendThrew)] else [];
    assert Sent(s, throws).log == s.log + more;
    forall n: nat ensures Threw(s.log + more, n) <==> Threw(s.log, n) || (throws && n == m) {
      ThrowsGrow(s.log, more, n);
    }
    hide Threw;
  }

  lemma {:induction false} ThrowsAreIssued(events: seq<Event>, bound: int)
    requires Run(events, bound).Some?
    ensures ThrowsLogged(Run(events, bound).value, Issued(events, bound))
  {
    if events != [] {
      var init := events[..|events| - 1];
      ThrowsAreIssued(init, bound);
      StepThrows(Run(init, bound).value, events[|events| - 1], bound, Issued(init, bound));
    }
  }

  /**
   * A request's promise callbacks are called once when its timer is gone, and once
   * more exactly if the call that issued it threw in `send`.
   */
  lemma SecondSettlementIffSendThrew(events: seq<Event>, bound: int, n: nat)
    requires Run(events, bound).Some? && 1 <= n <= Run(events, bound).value.messageId
    ensures var s, issued := Run(events, bound).value, Issued(events, bound);
            n <= |issued|
            && Settlements(s.log, n) == (if n in s.armed then 0 else 1) + (if issued[n - 1] then 1 else 0)
  {
    RequestsSettleOnce(events, bound);
    ThrowsAreIssued(events, bound);
    hide Run, Issued, Threw, Settlements, Id;
  }

  /** A run in which the callbacks of one request are called twice: its send throws, later its timer fires. */
  lemma ThrowingSendSettlesTwice(bound: int)
    ensures var events := [Connect(false), Opens(0), Send(true), TimerFires(1)];
            Run(events, bound).Some? && Settlements(Run(events, bound).value.log, 1) == 2
  {
    var events := [Connect(false), Opens(0), Send(true), TimerFires(1)];
    hide Run, Settlements;
    RunStart(events, bound);
    RunNext(events, 0, bound);
    RunNext(events, 1, bound);
    var open := Run(events[..2], bound).value;
    assert IsConnected(open);
    RunNext(events, 2, bound);
    RunNext(events, 3, bound);
    assert events[..4] == events;
    assert Run(events, bound).value.log == [Settlement(1, SendThrew)] + [Settlement(1, TimedOut)];
    SettlementsAppend([Settlement(1, SendThrew)], [Settlement(1, TimedOut)], 1);
    SettlementsOne(Settlement(1, SendThrew), 1);
    SettlementsOne(Settlement(1, TimedOut), 1);
  }

  /** After `disconnect` nothing is pending, no request timer is armed, and every issued request is settled. */
  lemma DisconnectSettlesAll(events: seq<Event>, bound: int)
    requires Run(events, bound).Some? && events != [] && events[|events| - 1] == Disconnect
    ensures var s := Run(events, bound).value;
      && s.pending == [] && s.armed == {} && s.ws == None
      && forall n: nat :: 1 <= n <= s.messageId ==> Settlements(s.log, n) >= 1
  {
    var before := events[..|events| - 1];
    RunKeeps(before, bound);
    DisconnectKeeps(Run(before, bound).value);
  }

  lemma ReconnectSteps(bound: int) returns (one: State, two: State, three: State, four: State)
    requires bound > 0
    ensures Step(INITIAL, Connect(false), bound) == Some(one) && Step(one, Opens(0), bound) == Some(two)
    ensures Step(two, Closes(0, false), bound) == Some(three) && Step(three, Disconnect, bound) == Some(four)
    ensures var last := Step(four, ReconnectFires(false), bound); last.Some? && last.value.ws == Some(1)
  {
    hide Sent, Received, Fired, Find, Without, Timers, Closings, Id;
    one := Connected(INITIAL, false);
    two := Step(one, Opens(0), bound).value;
    assert two.sockets == [Open];
    three := AfterClose(two, 0, false, bound);
    assert three.sockets == [Closed];
    four := Disconnected(three);
  }

  /** The client does not stay disconnected: a reconnect scheduled before opens a new socket. */
  lemma DisconnectedButReconnects(bound: int)
    requires bound > 0
    ensures var events := [Connect(false), Opens(0), Closes(0, false), Disconnect, ReconnectFires(false)];
            Run(events, bound).Some? && Run(events, bound).value.ws == Some(1)
  {
    var events := [Connect(false), Opens(0), Closes(0, false), Disconnect, ReconnectFires(false)];
    var one, two, three, four := ReconnectSteps(bound);
    hide Run, Step;
    RunStart(events, bound);
    RunNext(events, 0, bound);
    RunNext(events, 1, bound);
    RunNext(events, 2, bound);
    RunNext(events, 3, bound);
    RunNext(events, 4, bound);
    assert events[..5] == events;
  }

  /** Nobody calls `connect` and no socket breaks off uncleanly. */
  predicate Quiet(e: Event) { !e.Connect? && !(e.Closes? && !e.wasClean) }

  predicate AllQuiet(events: seq<Event>) { forall i :: 0 <= i < |events| ==> Quiet(events[i]) }

  /** No quiet continuation of the run opens another socket. */
  ghost predicate StaysDisconnected(events: seq<Event>, bound: int)
    requires Run(events, bound).Some?
  {
    forall more :: AllQuiet(more) && Run(events + more, bound).Some? ==>
      var t := Run(events + more, bound).value;
      t.ws == None && |t.sockets| == |Run(events, bound).value.sockets|
  }

  lemma QuietStep(s: State, e: Event, bound: int)
    requires s.ws == None && s.reconnectTimers == 0 && Quiet(e) && Step(s, e, bound).Some?
    ensures var t := Step(s, e, bound).value;
            t.ws == None && t.reconnectTimers == 0 && |t.sockets| == |s.sockets|
  {
    hide Find, Without, Timers, Closings, Id;
  }

  lemma {:induction false} QuietRun(events: seq<Event>, more: seq<Event>, bound: int)
    requires Run(events, bound).Some? && Run(events + more, bound).Some? && AllQuiet(more)
    requires Run(events, bound).value.ws == None && Run(events, bound).value.reconnectTimers == 0
    ensures var t := Run(events + more, bound).value;
            t.ws == None && t.reconnectTimers == 0 && |t.sockets| == |Run(events, bound).value.sockets|
    decreases |more|
  {
    if more == [] {
      assert events + more == events;
    } else {
      var init, e := more[..|more| - 1], more[|more| - 1];
      assert (events + more)[..|events + more| - 1] == events + init && (events + more)[|events + more| - 1] == e;
      assert AllQuiet(init) && Quiet(e);
      RunLast(events + more, bound);
      hide *;
      QuietRun(events, init, bound);
      QuietStep(Run(events + init, bound).value, e, bound);
    }
  }

  lemma RunTwo(events: seq<Event>, a: Event, b: Event, bound: int)
    requires Run(events, bound).Some? && Step(Run(events, bound).value, a, bound).Some?
    ensures Run(events + [a, b], bound) == Step(Step(Run(events, bound).value, a, bound).value, b, bound)
  {
    hide Step;
    assert (events + [a, b])[..|events| + 1] == events + [a];
    assert (events + [a])[..|events|] == events;
  }

  /**
   * After a disconnect, nothing but `connect` and unclean closes can bring a socket
   * back exactly when no reconnect timer was pending.
   */
  lemma StaysDisconnectedIff(events: seq<Event>, bound: int)
    requires Run(events + [Disconnect], bound).Some?
    ensures StaysDisconnected(events + [Disconnect], bound)
       <==> Run(events + [Disconnect], bound).value.reconnectTimers == 0
  {
    var past := events + [Disconnect];
    var s := Run(past, bound).value;
    assert past[..|events|] == events;
    assert s.ws == None;
    RunKeeps(past, bound);
    if s.reconnectTimers == 0 {
      forall more | AllQuiet(more) && Run(past + more, bound).Some?
        ensures Run(past + more, bound).value.ws == None && |Run(past + more, bound).value.sockets| == |s.sockets|
      {
        QuietRun(past, more, bound);
      }
    } else {
      var more := if s.isConnecting then [ConnectionTimeout, ReconnectFires(false)] else [ReconnectFires(false)];
      if s.isConnecting {
        RunTwo(past, ConnectionTimeout, ReconnectFires(false), bound);
      } else {
        assert (past + more)[..|past|] == past;
      }
      assert AllQuiet(more);
      assert Run(past + more, bound).value.ws.Some?;
    }
  }

  // ---- sockets that are not the current one ----

  predicate Live(s: State, i: nat) { i < |s.sockets| && (s.sockets[i] == Open || s.sockets[i] == Connecting) }

  /** `disconnect` leaves alone every live socket but the current one. */
  lemma LeftLiveIff(events: seq<Event>, bound: int, i: nat)
    requires Run(events, bound).Some?
    ensures Run(events + [Disconnect], bound).Some?
    ensures Live(Run(events + [Disconnect], bound).value, i)
       <==> Live(Run(events, bound).value, i) && Run(events, bound).value.ws != Some(i)
  {
    assert (events + [Disconnect])[..|events|] == events;
  }

  function Opened(s: State, i: nat): State
    requires i < |s.sockets|
  {
    s.(isConnecting := false, reconnectAttempts := 0, sockets := s.sockets[i := Open])
  }

  lemma StepOpens(s: State, i: nat, bound: int)
    requires i < |s.sockets| && s.sockets[i] == Connecting
    ensures Step(s, Opens(i), bound) == Some(Opened(s, i))
  {}

  lemma StepsToTwoSockets(bound: int) returns (one: State, two: State, three: State)
    ensures Step(INITIAL, Connect(false), bound) == Some(one) && Step(one, ConnectionTimeout, bound) == Some(two)
    ensures Step(two, Connect(false), bound) == Some(three)
    ensures three.sockets == [Connecting, Connecting] && three.ws == Some(1)
  {
    one := Connected(INITIAL, false);
    two := one.(isConnecting := false, connectTimers := 0);
    three := Connected(two, false);
  }

  lemma OpenSteps(bound: int) returns (one: State, two: State, three: State, four: State, five: State)
    ensures Step(INITIAL, Connect(false), bound) == Some(one) && Step(one, ConnectionTimeout, bound) == Some(two)
    ensures Step(two, Connect(false), bound) == Some(three) && Step(three, Opens(0), bound) == Some(four)
    ensures Step(four, Opens(1), bound) == Some(five)
    ensures var last := Step(five, Disconnect, bound);
            last.Some? && last.value.ws == None && last.value.sockets == [Open, Closing]
  {
    one, two, three := StepsToTwoSockets(bound);
    four := Opened(three, 0);
    five := Opened(four, 1);
    assert Step(five, Disconnect, bound) == Some(Disconnected(five));
    hide Step;
    StepOpens(three, 0, bound);
    StepOpens(four, 1, bound);
  }

  /** A run that ends with a disconnect and a socket still open: the timeout of the first let the second be made. */
  lemma DisconnectedButOpen(bound: int)
    ensures var events := [Connect(false), ConnectionTimeout, Connect(false), Opens(0), Opens(1), Disconnect];
            Run(events, bound).Some?
            && Run(events, bound).value.ws == None && Run(events, bound).value.sockets == [Open, Closing]
  {
    var events := [Connect(false), ConnectionTimeout, Connect(false), Opens(0), Opens(1), Disconnect];
    var one, two, three, four, five := OpenSteps(bound);
    hide Run, Step;
    RunStart(events, bound);
    RunNext(events, 0, bound);
    RunNext(events, 1, bound);
    RunNext(events, 2, bound);
    RunNext(events, 3, bound);
    RunNext(events, 4, bound);
    RunNext(events, 5, bound);
    assert events[..6] == events;
  }

  /**
   * Nothing ends the connecting early: no connection timeout, no error, and no other
   * socket closes while the current one is connecting.
   */
  predicate Orderly(s: State, e: Event) {
    && !e.ConnectionTimeout? && !e.Errors?
    && (e.Closes? && s.isConnecting && s.ws.Some? ==> s.ws == Some(e.socket))
  }

  predicate OrderlyRun(events: seq<Event>, bound: int) {
    events != [] ==>
      var init := events[..|events| - 1];
      OrderlyRun(init, bound) && Run(init, bound).Some? && Orderly(Run(init, bound).value, events[|events| - 1])
  }

  /** Only the current socket is live, and while it connects the client knows. */
  ghost predicate OnlyCurrentLive(s: State) {
    && (forall i: nat :: Live(s, i) ==> s.ws == Some(i))
    && (s.ws.Some? && Live(s, s.ws.value) && s.sockets[s.ws.value] == Connecting ==> s.isConnecting)
  }

  lemma SocketChanges(s: State, i: nat, now: Ready)
    requires OnlyCurrentLive(s) && i < |s.sockets|
    requires now == Open ==> s.sockets[i] == Connecting
    requires now == Open || now == Closed || now == Closing
    requires s.isConnecting && s.ws.Some? ==> s.ws == Some(i)
    ensures OnlyCurrentLive(s.(sockets := s.sockets[i := now], isConnecting := false))
  {
    var t := s.(sockets := s.sockets[i := now], isConnecting := false);
    assert now == Open ==> Live(s, i);
    forall k: nat | Live(t, k) ensures t.ws == Some(k) { assert Live(s, k); }
  }

  lemma NewSocket(s: State, throws: bool)
    requires OnlyCurrentLive(s)
    ensures OnlyCurrentLive(Connected(s, throws))
  {
    var t := Connected(s, throws);
    forall k: nat | Live(t, k) ensures t.ws == Some(k) {
      if k < |s.sockets| { assert Live(s, k); }
    }
  }

  lemma SocketLetGo(s: State)
    requires OnlyCurrentLive(s)
    ensures OnlyCurrentLive(Disconnected(s))
  {
    hide Timers, Closings;
    forall k: nat ensures !Live(Disconnected(s), k) {
      assert !Live(s, k) || s.ws == Some(k);
    }
  }

  lemma SameSockets(s: State, t: State)
    requires OnlyCurrentLive(s) && t.sockets == s.sockets && t.ws == s.ws && t.isConnecting == s.isConnecting
    ensures OnlyCurrentLive(t)
  {
    assert forall k: nat :: Live(t, k) <==> Live(s, k);
  }

  lemma OrderlyStep(s: State, e: Event, bound: int)
    requires OnlyCurrentLive(s) && Orderly(s, e) && Step(s, e, bound).Some?
    ensures OnlyCurrentLive(Step(s, e, bound).value)
  {
    var t := Step(s, e, bound).value;
    match e
    case Connect(throws) => NewSocket(s, throws);
    case Opens(i) =>
      assert Live(s, i);
      hide OnlyCurrentLive;
      OpensCurrent(s, i);
    case Closes(i, wasClean) =>
      hide OnlyCurrentLive;
      SocketChanges(s, i, Closed);
      SameSockets(s.(sockets := s.sockets[i := Closed], isConnecting := false), t);
    case ReconnectFires(throws) =>
      hide OnlyCurrentLive;
      var u := s.(reconnectTimers := s.reconnectTimers - 1);
      SameSockets(s, u);
      NewSocket(u, throws);
    case Disconnect => SocketLetGo(s);
    case _ =>
      hide OnlyCurrentLive;
      SameSockets(s, t);
  }

  lemma OpensCurrent(s: State, i: nat)
    requires OnlyCurrentLive(s) && i < |s.sockets| && s.sockets[i] == Connecting
    ensures OnlyCurrentLive(Opened(s, i))
  {
    assert Live(s, i);
    SocketChanges(s, i, Open);
    SameSockets(s.(sockets := s.sockets[i := Open], isConnecting := false), Opened(s, i));
  }

  lemma {:induction false} OrderlyKeeps(events: seq<Event>, bound: int)
    requires Run(events, bound).Some? && OrderlyRun(events, bound)
    ensures OnlyCurrentLive(Run(events, bound).value)
  {
    if events != [] {
      OrderlyKeeps(events[..|events| - 1], bound);
      OrderlyStep(Run(events[..|events| - 1], bound).value, events[|events| - 1], bound);
    }
  }

  /** After an orderly run a disconnect leaves no socket open or connecting. */
  lemma OrderlyDisconnectLeavesNone(events: seq<Event>, bound: int, i: nat)
    requires Run(events, bound).Some? && OrderlyRun(events, bound)
    ensures Run(events + [Disconnect], bound).Some? && !Live(Run(events + [Disconnect], bound).value, i)
  {
    OrderlyKeeps(events, bound);
    LeftLiveIff(events, bound, i);
  }

  /** A reconnect timer only exists while attempts are allowed, so it always tries to connect. */
  lemma ReconnectTimerConnects(events: seq<Event>, bound: int, throws: bool)
    requires Run(events, bound).Some? && Step(Run(events, bound).value, ReconnectFires(throws), bound).Some?
    ensures var s := Run(events, bound).value;
            Step(s, ReconnectFires(throws), bound).value == Connected(s.(reconnectTimers := s.reconnectTimers - 1), throws)
  {
    RunKeeps(events, bound);
  }

  lemma NoClosings()
    ensures Timers([]) == {} && Closings([]) == []
  {}

  lemma NextClosing(requests: seq<Request>, i: nat)
    requires i < |requests|
    ensures Timers(requests[..i + 1]) == Timers(requests[..i]) + {requests[i].timer}
    ensures Closings(requests[..i + 1]) == Closings(requests[..i]) + [Settlement(requests[i].timer, ConnectionClosed)]
  {
    assert requests[..i + 1] == requests[..i] + [requests[i]] && Timers([requests[i]]) == {requests[i].timer};
  }

  // ---- the object ----

  class Client {
    const bound: int
    var ws: Option<nat>
    var sockets: seq<Ready>
    var isConnecting: bool
    var connectTimers: nat
    var reconnectAttempts: int
    var reconnectTimers: nat
    var messageId: nat
    var pendingRequests: seq<Request>
    var armed: set<nat>
    var log: seq<Settlement>
    ghost var history: seq<Event>

    function Abstract(): State
      reads this
    {
      State(ws, sockets, isConnecting, connectTimers, reconnectAttempts, reconnectTimers, messageId, pendingRequests, armed, log)
    }

    /** The client's state is where its run leads. */
    ghost predicate Valid()
      reads this
    {
      Run(history, bound) == Some(Abstract())
    }

    constructor (bound: int)
      ensures Valid() && this.bound == bound && history == [] && Abstract() == INITIAL
    {
      this.bound := bound;
      ws, sockets, isConnecting, connectTimers := None, [], false, 0;
      reconnectAttempts, reconnectTimers, messageId := 0, 0, 0;
      pendingRequests, armed, log, history := [], {}, [], [];
    }

    /** What every client guarantees of its requests and reconnects at any time. */
    lemma Guarantee()
      requires Valid()
      ensures forall m, n :: 1 <= m < n <= messageId ==> Id(m) != Id(n)
      ensures forall n: nat :: n in armed <==> exists r :: r in pendingRequests && r.id == Id(n)
      ensures messageId == |Issued(history, bound)|
      ensures forall n: nat :: 1 <= n <= messageId ==>
                Settlements(log, n) == (if n in armed then 0 else 1) + (if Issued(history, bound)[n - 1] then 1 else 0)
      ensures 0 <= reconnectAttempts <= (if bound > 0 then bound else 0)
    {
      hide Run, Issued, Settlements, Threw, Id;
      RequestsSettleOnce(history, bound);
      ThrowsAreIssued(history, bound);
    }

    /** One more event of a run leads to what the step says. */
    lemma Extended(e: Event)
      requires Valid()
      ensures Run(history + [e], bound) == Step(Abstract(), e, bound)
    {
      assert (history + [e])[..|history|] == history;
    }

    /** lines 57-70 and 117-119; `ok` is false when the call is refused or the socket cannot be made */
    method TryConnect(throws: bool) returns (ok: bool)
      modifies this
      ensures Abstract() == Connected(old(Abstract()), throws) && history == old(history)
      ensures ok <==> IsConnected(old(Abstract())) || (!old(isConnecting) && !throws)
    {
      if IsConnected(Abstract()) {
        return true;
      }
      if isConnecting {
        return false;
      }
      isConnecting := true;
      if throws {
        isConnecting := false;
        return false;
      }
      sockets := sockets + [Connecting];
      ws := Some(|sockets| - 1);
      connectTimers := connectTimers + 1;
      return true;
    }

    /** The same, called from outside. */
    method Connect(throws: bool) returns (ok: bool)
      requires Valid()
      modifies this
      ensures Valid() && history == old(history) + [Event.Connect(throws)]
      ensures Step(old(Abstract()), Event.Connect(throws), bound) == Some(Abstract())
      ensures ok <==> IsConnected(old(Abstract())) || (!old(isConnecting) && !throws)
    {
      hide Run;
      Extended(Event.Connect(throws));
      history := history + [Event.Connect(throws)];
      ok := TryConnect(throws);
    }

    /** lines 72-78 */
    method OnOpen(i: nat)
      requires Valid()
      requires i < |sockets| && sockets[i] == Connecting
      modifies this
      ensures Valid() && history == old(history) + [Opens(i)]
      ensures Step(old(Abstract()), Opens(i), bound) == Some(Abstract())
    {
      hide Run;
      Extended(Opens(i));
      history := history + [Opens(i)];
      sockets := sockets[i := Open];
      isConnecting := false;
      reconnectAttempts := 0;
    }

    /** lines 84-96 and 358-367 */
    method OnClose(i: nat, wasClean: bool)
      requires Valid()
      requires i < |sockets| && sockets[i] != Closed
      modifies this
      ensures Valid() && history == old(history) + [Closes(i, wasClean)]
      ensures Step(old(Abstract()), Closes(i, wasClean), bound) == Some(Abstract())
    {
      hide Run;
      Extended(Closes(i, wasClean));
      history := history + [Closes(i, wasClean)];
      sockets := sockets[i := Closed];
      isConnecting := false;
      if !wasClean && reconnectAttempts < bound {
        reconnectAttempts := reconnectAttempts + 1;
        reconnectTimers := reconnectTimers + 1;
      }
    }

    /** lines 361-367 */
    method OnReconnectTimer(throws: bool)
      requires Valid()
      requires reconnectTimers > 0
      modifies this
      ensures Valid() && history == old(history) + [ReconnectFires(throws)]
      ensures Step(old(Abstract()), ReconnectFires(throws), bound) == Some(Abstract())
    {
      hide Run;
      Extended(ReconnectFires(throws));
      history := history + [ReconnectFires(throws)];
      reconnectTimers := reconnectTimers - 1;
      if reconnectAttempts <= bound {
        var _ := TryConnect(throws);
      }
    }

    /** lines 135-140: disarms and rejects the pending requests in order, then forgets them */
    method RejectPending()
      modifies this`armed, this`log, this`pendingRequests
      ensures armed == old(armed) - Timers(old(pendingRequests)) && pendingRequests == []
      ensures log == old(log) + Closings(old(pendingRequests))
    {
      hide Timers, Closings;
      var requests := pendingRequests;
      NoClosings();
      for i := 0 to |requests|
        invariant armed == old(armed) - Timers(requests[..i])
        invariant log == old(log) + Closings(requests[..i])
      {
        NextClosing(requests, i);
        armed := armed - {requests[i].timer};
        log := log + [Settlement(requests[i].timer, ConnectionClosed)];
      }
      assert requests[..|requests|] == requests;
      pendingRequests := [];
    }

    /** lines 127-141 */
    method Disconnect()
      requires Valid()
      modifies this
      ensures Valid() && history == old(history) + [Event.Disconnect]
      ensures Step(old(Abstract()), Event.Disconnect, bound) == Some(Abstract())
    {
      hide Run, Timers, Closings;
      Extended(Event.Disconnect);
      history := history + [Event.Disconnect];
      if ws.Some? {
        if ws.value < |sockets| && sockets[ws.value] != Closed {
          sockets := sockets[ws.value := Closing];
        }
        ws := None;
      }
      RejectPending();
    }

    /** lines 153-176; no request is issued when the socket is not open */
    method SendMessage(throws: bool) returns (issued: Option<nat>)
      requires Valid()
      modifies this
      ensures Valid() && history == old(history) + [Send(throws)]
      ensures Step(old(Abstract()), Send(throws), bound) == Some(Abstract())
      ensures issued == if IsConnected(old(Abstract())) then Some(messageId) else None
    {
      hide Run;
      Extended(Send(throws));
      history := history + [Send(throws)];
      if !IsConnected(Abstract()) {
        return None;
      }
      messageId := messageId + 1;
      var id := Id(messageId);
      armed := armed + {messageId};
      pendingRequests := pendingRequests + [Request(id, messageId)];
      if throws {
        log := log + [Settlement(messageId, SendThrew)];
      }
      return Some(messageId);
    }

    /** lines 263-274, for a message with this id */
    method HandleMessage(id: jstring, isError: bool)
      requires Valid()
      modifies this
      ensures Valid() && history == old(history) + [Message(id, isError)]
      ensures Step(old(Abstract()), Message(id, isError), bound) == Some(Abstract())
      ensures Answered(old(Abstract()), id, isError, Abstract())
    {
      hide Run, Id, Invariant, Answered;
      RunKeeps(history, bound);
      ResponseLaw(Abstract(), id, isError, bound);
      Extended(Message(id, isError));
      history := history + [Message(id, isError)];
      var i := Find(pendingRequests, id);
      if id != [] && i < |pendingRequests| {
        var request := pendingRequests[i];
        pendingRequests := Without(pendingRequests, i);
        armed := armed - {request.timer};
        log := log + [Settlement(request.timer, if isError then RejectedByPeer else Resolved)];
      }
    }

    /** lines 167-170 */
    method OnTimeout(n: nat)
      requires Valid()
      requires n in armed
      modifies this
      ensures Valid() && history == old(history) + [TimerFires(n)]
      ensures Step(old(Abstract()), TimerFires(n), bound) == Some(Abstract())
    {
      hide Run;
      Extended(TimerFires(n));
      history := history + [TimerFires(n)];
      armed := armed - {n};
      var i := Find(pendingRequests, Id(n));
      if i < |pendingRequests| {
        pendingRequests := Without(pendingRequests, i);
      }
      log := log + [Settlement(n, TimedOut)];
    }

    /** lines 98-107 */
    method OnError(i: nat)
      requires Valid()
      requires i < |sockets| && sockets[i] != Closed
      modifies this
      ensures Valid() && history == old(history) + [Errors(i)]
      ensures Step(old(Abstract()), Errors(i), bound) == Some(Abstract())
    {
      hide Run;
      Extended(Errors(i));
      history := history + [Errors(i)];
      isConnecting := false;
    }

    /** lines 110-115 */
    method OnConnectionTimeout()
      requires Valid()
      requires connectTimers > 0
      modifies this
      ensures Valid() && history == old(history) + [ConnectionTimeout]
      ensures Step(old(Abstract()), ConnectionTimeout, bound) == Some(Abstract())
    {
      hide Run;
      Extended(ConnectionTimeout);
      history := history + [ConnectionTimeout];
      connectTimers := connectTimers - 1;
      if isConnecting {
        isConnecting := false;
      }
    }
  }
}

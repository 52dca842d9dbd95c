/**
 Sending a list of messages over AMQP with failover. One handler per broker reacts to connection, delivery and timer
 events; all handlers share one list, from which a message is removed once a broker has settled it.
 */
module Messaging {

  /** A message object, compared by identity. The same object may be listed twice. */
  type Msg = nat

  /** Deliveries are numbered in the order in which they were sent. */
  datatype Event =
    | TimerTask
    | ConnectionOpened
    | ConnectionClosed
    | Settled(delivery: nat)
    | Rejected(delivery: nat)
    | Released(delivery: nat)
    | TailClosed
    | LinkError
    | TransportError(fatal: bool)

  /**
   The handler of one broker. Next to the shared list and its own fields, the history of the broker is kept:
   what was sent to it, what it settled, and what it rejected or released.
   */
  datatype Handler = Handler(
    msgs: seq<Msg>, pending: map<nat, Msg>, next: nat,
    connected: bool, connectTask: bool, timeoutTask: bool, stopped: bool, closed: bool,
    sent: seq<Msg>, settled: seq<Msg>, bounced: seq<Msg>)

  /** The handler when its container has started: both timers are running. */
  function Started(msgs: seq<Msg>): Handler {
    Handler(msgs, map[], 0, false, true, true, false, false, [], [], [])
  }

  function RemoveFirst(xs: seq<Msg>, m: Msg): seq<Msg> {
    if xs == [] then [] else if xs[0] == m then xs[1..] else [xs[0]] + RemoveFirst(xs[1..], m)
  }

  /** The pending deliveries once the messages have been sent as deliveries `next`, `next + 1`, ... */
  function Queued(pending: map<nat, Msg>, next: nat, msgs: seq<Msg>): map<nat, Msg>
    decreases |msgs|
  {
    if msgs == [] then pending
    else Queued(pending, next, msgs[..|msgs| - 1])[next + |msgs| - 1 := msgs[|msgs| - 1]]
  }

  /** Sends every message of the list. */
  function SentAll(h: Handler): Handler {
    h.(pending := Queued(h.pending, h.next, h.msgs), next := h.next + |h.msgs|, sent := h.sent + h.msgs)
  }

  /** Forgets a delivery; after the last one the send timer is cancelled and the connection closed. */
  function PendingUpdated(h: Handler, d: nat): Handler {
    var left := h.(pending := h.pending - {d});
    if left.pending == map[] then left.(timeoutTask := false, closed := true) else left
  }

  /** The handler after an event, and whether it was handled without an exception. */
  function Step(h: Handler, e: Event): (Handler, bool) {
    match e
    case TimerTask => (if h.connected then h.(stopped := true) else h.(timeoutTask := false, stopped := true), true)
    case ConnectionOpened =>
      if h.connectTask then (SentAll(h.(connected := true, connectTask := false)), true)
      else (h.(connected := true), false)
    case ConnectionClosed => (h, true)
    case Settled(d) =>
      if d !in h.pending || h.pending[d] !in h.msgs then (h, false)
      else
        var m := h.pending[d];
        (PendingUpdated(h.(msgs := RemoveFirst(h.msgs, m), settled := h.settled + [m]), d), true)
    case Rejected(d) =>
      if d !in h.pending then (h, false) else (PendingUpdated(h.(bounced := h.bounced + [h.pending[d]]), d), true)
    case Released(d) =>
      if d !in h.pending then (h, false) else (PendingUpdated(h.(bounced := h.bounced + [h.pending[d]]), d), true)
    case TailClosed => (h.(connectTask := false, timeoutTask := false), true)
    case LinkError => (h.(closed := true), true)
    case TransportError(fatal) => (if fatal then h.(closed := true) else h, true)
  }

  /** A broker's whole run: its events in order, up to the first exception. */
  function RunOf(h: Handler, events: seq<Event>): (Handler, bool)
    decreases |events|
  {
    if events == [] then (h, true)
    else
      var (h', ok) := Step(h, events[0]);
      if ok then RunOf(h', events[1..]) else (h', false)
  }

  /* The program's objects */

  class MessageList {
    var items: seq<Msg>

    constructor (items: seq<Msg>)
      ensures this.items == items
    {
      this.items := items;
    }
  }

  class TimeoutHandler {
    const msgs: MessageList
    var pending: map<nat, Msg>
    var next: nat
    var connected: bool
    var connectTask: bool
    var timeoutTask: bool
    var stopped: bool
    var closed: bool
    ghost var sent: seq<Msg>
    ghost var settled: seq<Msg>
    ghost var bounced: seq<Msg>

    ghost function State(): Handler
      reads this, msgs
    {
      Handler(msgs.items, pending, next, connected, connectTask, timeoutTask, stopped, closed, sent, settled, bounced)
    }

    constructor (msgs: MessageList)
      ensures this.msgs == msgs && State() == Started(msgs.items)
    {
      this.msgs := msgs;
      pending, next := map[], 0;
      connected, connectTask, timeoutTask, stopped, closed := false, true, true, false, false;
      sent, settled, bounced := [], [], [];
    }

    method OnTimerTask()
      modifies this
      ensures State() == Step(old(State()), TimerTask).0
      ensures stopped && (!connected ==> !timeoutTask) && msgs.items == old(msgs.items)
    {
      if !connected {
        if timeoutTask {
          timeoutTask := false;
        }
        stopped := true;
      } else {
        stopped := true;
      }
    }

    method OnConnectionOpened() returns (ok: bool)
      modifies this
      ensures (State(), ok) == Step(old(State()), ConnectionOpened)
      ensures connected && !connectTask && ok == old(connectTask)
      ensures sent == old(sent) + if ok then msgs.items else []
    {
      connected := true;
      if !connectTask {
        return false;
      }
      connectTask := false;
      SendMsgs();
      ok := true;
    }

    method SendMsgs()
      modifies this`pending, this`next, this`sent
      ensures State() == SentAll(old(State()))
      ensures sent == old(sent) + msgs.items && next == old(next) + |msgs.items|
      ensures forall d :: old(next) <= d < next ==> d in pending && pending[d] == msgs.items[d - old(next)]
    {
      for i := 0 to |msgs.items|
        invariant pending == Queued(old(pending), old(next), msgs.items[..i])
        invariant next == old(next) + i && sent == old(sent) + msgs.items[..i]
        invariant forall d :: old(next) <= d < next ==> d in pending && pending[d] == msgs.items[d - old(next)]
      {
        assert msgs.items[..i + 1][..i] == msgs.items[..i];
        pending := pending[next := msgs.items[i]];
        next := next + 1;
        sent := sent + [msgs.items[i]];
      }
      assert msgs.items[..|msgs.items|] == msgs.items;
    }

    method UpdatePending(delivery: nat)
      requires delivery in pending
      modifies this
      ensures State() == PendingUpdated(old(State()), delivery)
      ensures delivery !in pending && pending == old(pending) - {delivery}
      ensures (closed <==> old(closed) || pending == map[]) && (timeoutTask <==> old(timeoutTask) && pending != map[])
    {
      pending := pending - {delivery};
      if pending == map[] {
        if timeoutTask {
          timeoutTask := false;
        }
        closed := true;
      }
    }

    method OnSettled(delivery: nat) returns (ok: bool)
      modifies this, msgs
      ensures (State(), ok) == Step(old(State()), Settled(delivery))
      ensures ok ==> delivery !in pending && delivery in old(pending)
      ensures ok ==> multiset(old(msgs.items)) == multiset(msgs.items) + multiset{old(pending)[delivery]}
    {
      if delivery !in pending {
        return false;
      }
      var msg := pending[delivery];
      if msg !in msgs.items {
        return false;
      }
      RemoveFirstBag(msgs.items, msg);
      msgs.items := RemoveFirst(msgs.items, msg);
      settled := settled + [msg];
      UpdatePending(delivery);
      ok := true;
    }

    /** A rejected and a released message are treated alike: it stays in the list. */
    method OnRejectedOrReleased(delivery: nat) returns (ok: bool)
      modifies this
      ensures (State(), ok) == Step(old(State()), Rejected(delivery))
      ensures (State(), ok) == Step(old(State()), Released(delivery))
      ensures msgs.items == old(msgs.items) && (ok ==> delivery !in pending)
    {
      if delivery !in pending {
        return false;
      }
      bounced := bounced + [pending[delivery]];
      UpdatePending(delivery);
      ok := true;
    }

    method OnTransportTailClosed()
      modifies this
      ensures State() == Step(old(State()), TailClosed).0
      ensures !connectTask && !timeoutTask && pending == old(pending) && msgs.items == old(msgs.items)
    {
      if connectTask {
        connectTask := false;
      }
      if timeoutTask {
        timeoutTask := false;
      }
    }

    method Handle(e: Event) returns (ok: bool)
      modifies this, msgs
      ensures (State(), ok) == Step(old(State()), e)
    {
      ok := true;
      match e
      case TimerTask => OnTimerTask();
      case ConnectionOpened => ok := OnConnectionOpened();
      case ConnectionClosed =>
      case Settled(d) => ok := OnSettled(d);
      case Rejected(d) => ok := OnRejectedOrReleased(d);
      case Released(d) => ok := OnRejectedOrReleased(d);
      case TailClosed => OnTransportTailClosed();
      case LinkError => closed := true;
      case TransportError(fatal) => if fatal { closed := true; }
    }

    /** The container's loop: every event in turn. */
    method RunContainer(events: seq<Event>) returns (ok: bool)
      modifies this, msgs
      ensures (State(), ok) == RunOf(old(State()), events)
      ensures forall start :: old(Consistent(State(), start)) ==> Consistent(State(), start)
    {
      for i := 0 to |events|
        invariant RunOf(State(), events[i..]) == RunOf(old(State()), events)
      {
        assert events[i..][1..] == events[i + 1..];
        ok := Handle(events[i]);
        if !ok {
          RunKeepsConsistencyAlways(old(State()), events);
          return;
        }
      }
      RunKeepsConsistencyAlways(old(State()), events);
      ok := true;
    }
  }

  /* One broker */

  /** How often a message occurs in a list. */
  function Count(xs: seq<Msg>, m: Msg): nat
    decreases |xs|
  {
    if xs == [] then 0 else Count(xs[..|xs| - 1], m) + if xs[|xs| - 1] == m then 1 else 0
  }

  lemma {:induction false} CountIsMultiplicity(xs: seq<Msg>, m: Msg)
    ensures Count(xs, m) == multiset(xs)[m]
    decreases |xs|
  {
    if xs != [] {
      CountIsMultiplicity(xs[..|xs| - 1], m);
      assert xs == xs[..|xs| - 1] + [xs[|xs| - 1]];
    }
  }

  lemma CountAppend(xs: seq<Msg>, x: Msg, m: Msg)
    ensures Count(xs + [x], m) == Count(xs, m) + if x == m then 1 else 0
  {
    assert (xs + [x])[..|xs|] == xs;
  }

  lemma RemoveFirstCounts(xs: seq<Msg>, x: Msg, m: Msg)
    ensures Count(RemoveFirst(xs, x), m) == Count(xs, m) - if x == m && x in xs then 1 else 0
  {
    RemoveFirstBag(xs, x);
    CountIsMultiplicity(xs, m);
    CountIsMultiplicity(RemoveFirst(xs, x), m);
  }

  lemma {:induction false} RemoveFirstBag(xs: seq<Msg>, x: Msg)
    ensures x in xs ==> multiset(xs) == multiset(RemoveFirst(xs, x)) + multiset{x}
    ensures x !in xs ==> RemoveFirst(xs, x) == xs
  {
    if xs != [] {
      RemoveFirstBag(xs[1..], x);
      assert xs == [xs[0]] + xs[1..];
    }
  }

  /** How often a message is pending among the first `n` deliveries. */
  function PendingCount(pending: map<nat, Msg>, n: nat, m: Msg): nat
    decreases n
  {
    if n == 0 then 0 else PendingCount(pending, n - 1, m) + if n - 1 in pending && pending[n - 1] == m then 1 else 0
  }

  lemma {:induction false} PendingCountWithout(pending: map<nat, Msg>, n: nat, d: nat, m: Msg)
    requires d in pending && d < n
    ensures PendingCount(pending, n, m) == PendingCount(pending - {d}, n, m) + if pending[d] == m then 1 else 0
    decreases n
  {
    if d < n - 1 {
      PendingCountWithout(pending, n - 1, d, m);
    } else {
      PendingCountSame(pending, pending - {d}, d, m);
    }
  }

  lemma {:induction false} PendingCountSame(p: map<nat, Msg>, q: map<nat, Msg>, n: nat, m: Msg)
    requires forall i :: 0 <= i < n ==> (i in p <==> i in q) && (i in p ==> p[i] == q[i])
    ensures PendingCount(p, n, m) == PendingCount(q, n, m)
    decreases n
  {
    if n > 0 {
      PendingCountSame(p, q, n - 1, m);
    }
  }

  lemma {:induction false} QueuedCounts(msgs: seq<Msg>, m: Msg)
    ensures PendingCount(Queued(map[], 0, msgs), |msgs|, m) == Count(msgs, m)
    ensures forall d :: d in Queued(map[], 0, msgs) <==> 0 <= d < |msgs|
    decreases |msgs|
  {
    if msgs != [] {
      var init := msgs[..|msgs| - 1];
      QueuedCounts(init, m);
      PendingCountSame(Queued(map[], 0, msgs), Queued(map[], 0, init), |init|, m);
    }
  }

  /** Each message that the broker was given is still in the list or was settled by it; so often as it was given. */
  ghost predicate NothingLost(h: Handler, start: seq<Msg>) {
    forall m :: Count(start, m) == Count(h.msgs, m) + Count(h.settled, m)
  }

  /** The list consists of the pending and the bounced messages. */
  ghost predicate ListExplained(h: Handler) {
    forall m :: Count(h.msgs, m) == PendingCount(h.pending, h.next, m) + Count(h.bounced, m)
  }

  /** Before sending, nothing has happened; after it, the whole list was sent once, in order. */
  ghost predicate SentOnce(h: Handler, start: seq<Msg>) {
    && (h.sent == [] ==> h.next == 0 && h.msgs == start && h.pending == map[] && h.settled == [] && h.bounced == [])
    && (h.sent != [] ==> h.sent == start && h.next == |start| && !h.connectTask)
    && (forall d :: d in h.pending ==> d < h.next)
  }

  /** A timer that fires while connected is the send timer; it is off once every outcome is in. */
  ghost predicate TimersRight(h: Handler) {
    && (h.connectTask ==> !h.connected)
    && (h.sent != [] && h.pending == map[] ==> h.closed && !h.timeoutTask)
  }

  /** What holds of the handler of a broker that was given the messages `start`, after any events. */
  ghost predicate Consistent(h: Handler, start: seq<Msg>) {
    NothingLost(h, start) && SentOnce(h, start) && TimersRight(h) && (h.sent != [] ==> ListExplained(h))
  }

  lemma {:induction false} PendingCounted(pending: map<nat, Msg>, n: nat, d: nat)
    requires d in pending && d < n
    ensures PendingCount(pending, n, pending[d]) > 0
    decreases n
  {
    if d < n - 1 {
      PendingCounted(pending, n - 1, d);
    }
  }

  lemma PendingIsListed(h: Handler, start: seq<Msg>, d: nat)
    requires Consistent(h, start) && d in h.pending
    ensures h.sent != [] && h.pending[d] in h.msgs
  {
    PendingCounted(h.pending, h.next, d);
    CountIsMultiplicity(h.msgs, h.pending[d]);
  }

  lemma SettledCounts(h: Handler, start: seq<Msg>, d: nat, m: Msg)
    requires Consistent(h, start) && d in h.pending
    ensures
      var next := Step(h, Settled(d)).0;
      && Count(start, m) == Count(next.msgs, m) + Count(next.settled, m)
      && Count(next.msgs, m) == PendingCount(next.pending, next.next, m) + Count(next.bounced, m)
  {
    var x := h.pending[d];
    PendingIsListed(h, start, d);
    RemoveFirstCounts(h.msgs, x, m);
    CountAppend(h.settled, x, m);
    PendingCountWithout(h.pending, h.next, d, m);
  }

  lemma SettledKeeps(h: Handler, start: seq<Msg>, d: nat)
    requires Consistent(h, start) && d in h.pending
    ensures Consistent(Step(h, Settled(d)).0, start)
  {
    var next := Step(h, Settled(d)).0;
    PendingIsListed(h, start, d);
    assert SentOnce(next, start) && TimersRight(next);
    forall m
      ensures Count(start, m) == Count(next.msgs, m) + Count(next.settled, m)
      ensures Count(next.msgs, m) == PendingCount(next.pending, next.next, m) + Count(next.bounced, m)
    {
      SettledCounts(h, start, d, m);
    }
  }

  lemma BouncedCounts(h: Handler, start: seq<Msg>, d: nat, m: Msg)
    requires Consistent(h, start) && d in h.pending
    ensures
      var next := Step(h, Rejected(d)).0;
      && Count(start, m) == Count(next.msgs, m) + Count(next.settled, m)
      && Count(next.msgs, m) == PendingCount(next.pending, next.next, m) + Count(next.bounced, m)
  {
    PendingIsListed(h, start, d);
    CountAppend(h.bounced, h.pending[d], m);
    PendingCountWithout(h.pending, h.next, d, m);
  }

  lemma BouncedKeeps(h: Handler, start: seq<Msg>, d: nat)
    requires Consistent(h, start) && d in h.pending
    ensures Consistent(Step(h, Rejected(d)).0, start)
  {
    var next := Step(h, Rejected(d)).0;
    PendingIsListed(h, start, d);
    assert SentOnce(next, start) && TimersRight(next);
    forall m
      ensures Count(start, m) == Count(next.msgs, m) + Count(next.settled, m)
      ensures Count(next.msgs, m) == PendingCount(next.pending, next.next, m) + Count(next.bounced, m)
    {
      BouncedCounts(h, start, d, m);
    }
  }

  lemma OpenedKeeps(h: Handler, start: seq<Msg>)
    requires Consistent(h, start) && h.connectTask
    ensures Consistent(Step(h, ConnectionOpened).0, start)
  {
    var next := Step(h, ConnectionOpened).0;
    assert next.sent == start;
    QueuedCounts(start, 0);
    assert start != [] ==> 0 in next.pending;
    forall m
      ensures Count(next.msgs, m) == PendingCount(next.pending, next.next, m) + Count(next.bounced, m)
    {
      QueuedCounts(start, m);
    }
  }

  /**
   Every event, expected or not, keeps the handler consistent; and the only events that raise an exception are an
   outcome for a delivery that is not pending and an opening after the connect timer is gone. In particular a settled
   message is always there to be removed from the list.
   */
  lemma EventsKeepConsistency(h: Handler, start: seq<Msg>, e: Event)
    requires Consistent(h, start)
    ensures Consistent(Step(h, e).0, start)
    ensures
      !Step(h, e).1 <==>
      || (e.ConnectionOpened? && !h.connectTask)
      || ((e.Settled? || e.Rejected? || e.Released?) && e.delivery !in h.pending)
  {
    match e
    case ConnectionOpened =>
      if h.connectTask {
        OpenedKeeps(h, start);
      }
    case Settled(d) =>
      if d in h.pending {
        PendingIsListed(h, start, d);
        SettledKeeps(h, start, d);
      }
    case Rejected(d) =>
      if d in h.pending {
        BouncedKeeps(h, start, d);
      }
    case Released(d) =>
      if d in h.pending {
        BouncedKeeps(h, start, d);
      }
    case _ =>
  }

  lemma {:induction false} RunKeepsConsistency(h: Handler, start: seq<Msg>, events: seq<Event>)
    requires Consistent(h, start)
    ensures Consistent(RunOf(h, events).0, start)
    decreases |events|
  {
    if events != [] {
      EventsKeepConsistency(h, start, events[0]);
      if Step(h, events[0]).1 {
        RunKeepsConsistency(Step(h, events[0]).0, start, events[1..]);
      }
    }
  }

  lemma RunKeepsConsistencyAlways(h: Handler, events: seq<Event>)
    ensures forall start :: Consistent(h, start) ==> Consistent(RunOf(h, events).0, start)
  {
    forall start | Consistent(h, start)
      ensures Consistent(RunOf(h, events).0, start)
    {
      RunKeepsConsistency(h, start, events);
    }
  }

  /** Conservation at one broker, for every list of messages and every sequence of events. */
  lemma BrokerConserves(start: seq<Msg>, events: seq<Event>)
    ensures Consistent(RunOf(Started(start), events).0, start)
  {
    RunKeepsConsistency(Started(start), start, events);
  }

  /* Which events a handler can take */

  predicate IsOutcome(e: Event) {
    e.Settled? || e.Rejected? || e.Released?
  }

  predicate HasOpened(past: seq<Event>) {
    exists i :: 0 <= i < |past| && past[i].ConnectionOpened?
  }

  predicate HasOutcome(past: seq<Event>, d: nat) {
    exists i :: 0 <= i < |past| && IsOutcome(past[i]) && past[i].delivery == d
  }

  predicate HasClosed(past: seq<Event>) {
    exists i :: 0 <= i < |past| && past[i].TailClosed?
  }

  /**
   The event may come after those of `past` at a broker that was given `n` messages: the connection opens once, and not
   after the transport has closed; and each delivery has one outcome, once the connection is open.
   */
  predicate Expected(n: nat, past: seq<Event>, e: Event) {
    if e.ConnectionOpened? then !HasOpened(past) && !HasClosed(past)
    else IsOutcome(e) ==> e.delivery < n && HasOpened(past) && !HasOutcome(past, e.delivery)
  }

  predicate AllExpected(n: nat, events: seq<Event>) {
    forall i :: 0 <= i < |events| ==> Expected(n, events[..i], events[i])
  }

  /** The handler after expected events: its timer and its pending deliveries tell what has come. */
  ghost predicate Tracks(h: Handler, start: seq<Msg>, past: seq<Event>) {
    && Consistent(h, start)
    && (h.connectTask <==> !HasOpened(past) && !HasClosed(past))
    && (forall d: nat :: d in h.pending <==> d < |start| && HasOpened(past) && !HasOutcome(past, d))
    && (!HasOpened(past) ==> forall d: nat :: !HasOutcome(past, d))
  }

  lemma OneMoreEvent(past: seq<Event>, e: Event, d: nat)
    ensures HasOpened(past + [e]) <==> HasOpened(past) || e.ConnectionOpened?
    ensures HasClosed(past + [e]) <==> HasClosed(past) || e.TailClosed?
    ensures HasOutcome(past + [e], d) <==> HasOutcome(past, d) || (IsOutcome(e) && e.delivery == d)
  {
    var now := past + [e];
    assert forall i :: 0 <= i < |past| ==> now[i] == past[i];
    assert now[|past|] == e;
  }

  lemma {:induction false} QueuedDomain(pending: map<nat, Msg>, msgs: seq<Msg>, d: nat)
    ensures d in Queued(pending, 0, msgs) <==> d in pending || 0 <= d < |msgs|
    decreases |msgs|
  {
    if msgs != [] {
      QueuedDomain(pending, msgs[..|msgs| - 1], d);
    }
  }

  lemma TracksStep(h: Handler, start: seq<Msg>, past: seq<Event>, e: Event)
    requires Tracks(h, start, past)
    ensures Step(h, e).1 <==> Expected(|start|, past, e)
    ensures Step(h, e).1 ==> Tracks(Step(h, e).0, start, past + [e])
  {
    EventsKeepConsistency(h, start, e);
    if Step(h, e).1 {
      var next := Step(h, e).0;
      forall d: nat
        ensures d in next.pending <==> d < |start| && HasOpened(past + [e]) && !HasOutcome(past + [e], d)
        ensures !HasOpened(past + [e]) ==> !HasOutcome(past + [e], d)
      {
        OneMoreEvent(past, e, d);
        if e.ConnectionOpened? {
          QueuedDomain(h.pending, h.msgs, d);
        }
      }
      OneMoreEvent(past, e, 0);
    }
  }

  lemma {:induction false} RunTracks(h: Handler, start: seq<Msg>, past: seq<Event>, events: seq<Event>)
    requires Tracks(h, start, past)
    ensures
      RunOf(h, events).1 <==>
      forall i :: 0 <= i < |events| ==> Expected(|start|, past + events[..i], events[i])
    decreases |events|
  {
    if events != [] {
      var (e, rest) := (events[0], events[1..]);
      TracksStep(h, start, past, e);
      assert past + events[..0] == past;
      if Step(h, e).1 {
        RunTracks(Step(h, e).0, start, past + [e], rest);
        forall i | 0 <= i < |rest|
          ensures past + [e] + rest[..i] == past + events[..i + 1] && rest[i] == events[i + 1]
        {
          assert events[..i + 1] == [e] + rest[..i];
        }
        assert forall i :: 0 < i < |events| ==> past + [e] + rest[..i - 1] == past + events[..i];
      }
    }
  }

  /** No handler raises an exception exactly when every event of the broker is expected. */
  lemma RunsIffExpected(start: seq<Msg>, events: seq<Event>)
    ensures RunOf(Started(start), events).1 <==> AllExpected(|start|, events)
  {
    RunTracks(Started(start), start, [], events);
    assert forall i :: 0 <= i < |events| ==> [] + events[..i] == events[..i];
  }

  /* What the events say of the connection and its timers */

  /** A link error or a fatal transport error has come. */
  predicate HasFailed(past: seq<Event>) {
    exists i :: 0 <= i < |past| && (past[i].LinkError? || past[i] == TransportError(true))
  }

  predicate HasTimedOut(past: seq<Event>) {
    exists i :: 0 <= i < |past| && past[i].TimerTask?
  }

  /** A timer has fired before the connection was open. */
  predicate HasGivenUp(past: seq<Event>) {
    exists i :: 0 <= i < |past| && past[i].TimerTask? && !HasOpened(past[..i])
  }

  /** There were messages, and each has had its outcome. */
  predicate AllOut(n: nat, past: seq<Event>) {
    n > 0 && forall d :: 0 <= d < n ==> HasOutcome(past, d)
  }

  ghost predicate ShowsEvents(h: Handler, n: nat, past: seq<Event>) {
    && (h.connected <==> HasOpened(past))
    && (h.stopped <==> HasTimedOut(past))
    && (h.closed <==> HasFailed(past) || AllOut(n, past))
    && (h.timeoutTask <==> !HasClosed(past) && !HasGivenUp(past) && !AllOut(n, past))
  }

  lemma OneMoreEventShows(past: seq<Event>, e: Event)
    ensures HasFailed(past + [e]) <==> HasFailed(past) || e.LinkError? || e == TransportError(true)
    ensures HasTimedOut(past + [e]) <==> HasTimedOut(past) || e.TimerTask?
    ensures HasGivenUp(past + [e]) <==> HasGivenUp(past) || (e.TimerTask? && !HasOpened(past))
  {
    var now := past + [e];
    assert forall i :: 0 <= i < |past| ==> now[i] == past[i] && now[..i] == past[..i];
    assert now[|past|] == e && now[..|past|] == past;
  }

  /** The last pending delivery is forgotten exactly when every delivery has had its outcome. */
  lemma LastOutcome(h: Handler, start: seq<Msg>, past: seq<Event>, e: Event)
    requires Tracks(h, start, past) && IsOutcome(e) && Expected(|start|, past, e)
    ensures h.pending - {e.delivery} == map[] <==> AllOut(|start|, past + [e])
  {
    forall d: nat
      ensures HasOutcome(past + [e], d) <==> HasOutcome(past, d) || e.delivery == d
    {
      OneMoreEvent(past, e, d);
    }
    var left := h.pending - {e.delivery};
    assert forall d: nat :: d in left <==> d < |start| && !HasOutcome(past + [e], d);
    if left != map[] {
      var d :| d in left;
    }
  }

  lemma NoMoreOutcomes(n: nat, past: seq<Event>, e: Event)
    requires !IsOutcome(e)
    ensures AllOut(n, past + [e]) <==> AllOut(n, past)
  {
    forall d: nat
      ensures HasOutcome(past + [e], d) <==> HasOutcome(past, d)
    {
      OneMoreEvent(past, e, d);
    }
  }

  lemma AllOutStays(start: seq<Msg>, past: seq<Event>, e: Event)
    requires Expected(|start|, past, e) && IsOutcome(e)
    ensures !AllOut(|start|, past)
  {
  }

  lemma ShowsOneMore(h: Handler, start: seq<Msg>, past: seq<Event>, e: Event)
    requires Tracks(h, start, past) && ShowsEvents(h, |start|, past) && Expected(|start|, past, e)
    ensures Step(h, e).1 && ShowsEvents(Step(h, e).0, |start|, past + [e])
  {
    TracksStep(h, start, past, e);
    OneMoreEvent(past, e, 0);
    OneMoreEventShows(past, e);
    if IsOutcome(e) {
      LastOutcome(h, start, past, e);
      AllOutStays(start, past, e);
    } else {
      NoMoreOutcomes(|start|, past, e);
    }
  }

  /** What one expected event keeps, a run of them keeps. */
  lemma {:induction false} RunKeeps(
      h: Handler, start: seq<Msg>, past: seq<Event>, events: seq<Event>, keeps: (Handler, seq<Event>) -> bool)
    requires Tracks(h, start, past) && keeps(h, past) && RunOf(h, events).1
    requires forall h, past, e :: Tracks(h, start, past) && keeps(h, past) && Expected(|start|, past, e) ==>
      keeps(Step(h, e).0, past + [e])
    ensures keeps(RunOf(h, events).0, past + events)
    decreases |events|
  {
    if events == [] {
      assert past + events == past;
    } else {
      TracksStep(h, start, past, events[0]);
      RunKeeps(Step(h, events[0]).0, start, past + [events[0]], events[1..], keeps);
      assert past + [events[0]] + events[1..] == past + events;
    }
  }

  /**
   After expected events, and from these alone: the connection is closed if and only if there was a link error or a
   fatal transport error, or every message has had its outcome; the send timer is on if and only if the transport has
   not closed, no timer has fired before the connection was open, and some message is still without outcome; and the
   container was stopped if and only if some timer has fired.
   */
  lemma ConnectionShowsEvents(start: seq<Msg>, events: seq<Event>)
    requires AllExpected(|start|, events)
    ensures ShowsEvents(RunOf(Started(start), events).0, |start|, events)
  {
    RunsIffExpected(start, events);
    assert !HasOutcome([], 0);
    var shows := (h: Handler, past: seq<Event>) => ShowsEvents(h, |start|, past);
    forall h, past, e | Tracks(h, start, past) && shows(h, past) && Expected(|start|, past, e)
      ensures shows(Step(h, e).0, past + [e])
    {
      ShowsOneMore(h, start, past, e);
    }
    RunKeeps(Started(start), start, [], events, shows);
    assert [] + events == events;
  }

  /* What the events say of the messages */

  /** The message whose outcome the event is, if it is a settlement; delivery `d` is the `d`th message. */
  function SettledIn(start: seq<Msg>, e: Event): seq<Msg> {
    if e.Settled? && e.delivery < |start| then [start[e.delivery]] else []
  }

  function BouncedIn(start: seq<Msg>, e: Event): seq<Msg> {
    if (e.Rejected? || e.Released?) && e.delivery < |start| then [start[e.delivery]] else []
  }

  function SettledBy(start: seq<Msg>, events: seq<Event>): seq<Msg>
    decreases |events|
  {
    if events == [] then []
    else SettledBy(start, events[..|events| - 1]) + SettledIn(start, events[|events| - 1])
  }

  function BouncedBy(start: seq<Msg>, events: seq<Event>): seq<Msg>
    decreases |events|
  {
    if events == [] then []
    else BouncedBy(start, events[..|events| - 1]) + BouncedIn(start, events[|events| - 1])
  }

  /** Deliveries are numbered in the order of the list, all of which is sent when the connection opens. */
  ghost predicate DealsInOrder(h: Handler, start: seq<Msg>, past: seq<Event>) {
    && (forall d :: d in h.pending ==> d < |start| && h.pending[d] == start[d])
    && (if HasOpened(past) then h.sent == start
        else h.msgs == start && h.sent == [] && h.next == 0 && h.pending == map[])
  }

  ghost predicate ShowsMessages(h: Handler, start: seq<Msg>, past: seq<Event>) {
    DealsInOrder(h, start, past) && h.settled == SettledBy(start, past) && h.bounced == BouncedBy(start, past)
  }

  lemma {:induction false} QueuedAt(msgs: seq<Msg>, d: nat)
    requires d in Queued(map[], 0, msgs)
    ensures d < |msgs| && Queued(map[], 0, msgs)[d] == msgs[d]
    decreases |msgs|
  {
    if msgs != [] && d != |msgs| - 1 {
      QueuedAt(msgs[..|msgs| - 1], d);
    }
  }

  lemma OpeningDeals(h: Handler, start: seq<Msg>, past: seq<Event>)
    requires Tracks(h, start, past) && DealsInOrder(h, start, past) && Expected(|start|, past, ConnectionOpened)
    ensures DealsInOrder(Step(h, ConnectionOpened).0, start, past + [ConnectionOpened])
  {
    OneMoreEvent(past, ConnectionOpened, 0);
    forall d | d in Queued(map[], 0, start)
      ensures d < |start| && Queued(map[], 0, start)[d] == start[d]
    {
      QueuedAt(start, d);
    }
    assert h.sent + h.msgs == start;
  }

  lemma OutcomeDeals(h: Handler, start: seq<Msg>, past: seq<Event>, e: Event)
    requires Tracks(h, start, past) && DealsInOrder(h, start, past) && Expected(|start|, past, e) && IsOutcome(e)
    ensures DealsInOrder(Step(h, e).0, start, past + [e])
    ensures Step(h, e).0.settled == h.settled + SettledIn(start, e)
    ensures Step(h, e).0.bounced == h.bounced + BouncedIn(start, e)
  {
    TracksStep(h, start, past, e);
    OneMoreEvent(past, e, 0);
    assert h.pending[e.delivery] == start[e.delivery];
    assert h.settled + [] == h.settled && h.bounced + [] == h.bounced;
  }

  lemma OtherDeals(h: Handler, start: seq<Msg>, past: seq<Event>, e: Event)
    requires DealsInOrder(h, start, past) && !e.ConnectionOpened? && !IsOutcome(e)
    ensures DealsInOrder(Step(h, e).0, start, past + [e])
  {
    OneMoreEvent(past, e, 0);
  }

  lemma ShowsOneMoreMessage(h: Handler, start: seq<Msg>, past: seq<Event>, e: Event)
    requires Tracks(h, start, past) && ShowsMessages(h, start, past) && Expected(|start|, past, e)
    ensures ShowsMessages(Step(h, e).0, start, past + [e])
  {
    assert (past + [e])[..|past|] == past;
    if e.ConnectionOpened? {
      OpeningDeals(h, start, past);
    } else if IsOutcome(e) {
      OutcomeDeals(h, start, past, e);
    } else {
      OtherDeals(h, start, past, e);
    }
  }

  /**
   After expected events, and from these alone: what was sent is the whole list, if the connection has opened, and what
   was settled or bounced are the messages of the deliveries that the events name.
   */
  lemma MessagesShowEvents(start: seq<Msg>, events: seq<Event>)
    requires AllExpected(|start|, events)
    ensures
      var h := RunOf(Started(start), events).0;
      && h.sent == (if HasOpened(events) then start else [])
      && h.settled == SettledBy(start, events) && h.bounced == BouncedBy(start, events)
  {
    RunsIffExpected(start, events);
    var shows := (h: Handler, past: seq<Event>) => ShowsMessages(h, start, past);
    forall h, past, e | Tracks(h, start, past) && shows(h, past) && Expected(|start|, past, e)
      ensures shows(Step(h, e).0, past + [e])
    {
      ShowsOneMoreMessage(h, start, past, e);
    }
    RunKeeps(Started(start), start, [], events, shows);
    assert [] + events == events;
  }

  function Settlements(events: seq<Event>): nat
    decreases |events|
  {
    if events == [] then 0 else (if events[0].Settled? then 1 else 0) + Settlements(events[1..])
  }

  lemma {:induction false} RemoveFirstLength(xs: seq<Msg>, m: Msg)
    ensures |RemoveFirst(xs, m)| == |xs| - if m in xs then 1 else 0
  {
    if xs != [] {
      RemoveFirstLength(xs[1..], m);
    }
  }

  /** Each settlement takes one message from the list, and nothing else does. */
  lemma {:induction false} SettlementsShorten(h: Handler, events: seq<Event>)
    requires RunOf(h, events).1
    ensures |RunOf(h, events).0.msgs| + Settlements(events) == |h.msgs|
    decreases |events|
  {
    if events != [] {
      var next := Step(h, events[0]).0;
      SettlementsShorten(next, events[1..]);
      if events[0].Settled? {
        RemoveFirstLength(h.msgs, h.pending[events[0].delivery]);
      }
    }
  }

  /* Failover across brokers */

  /** `Raised` stands for an exception out of a handler, `Unsent` for the error raised after the last broker. */
  datatype Outcome = AllSent | Unsent(count: nat) | Raised

  /** The brokers in the order in which they are tried, each with the events of its run. */
  function Visits(msgs: seq<Msg>, runs: seq<seq<Event>>): (Outcome, seq<Handler>)
    decreases |runs|
  {
    if runs == [] then (Unsent(|msgs|), [])
    else
      var (h, ok) := RunOf(Started(msgs), runs[0]);
      if !ok then (Raised, [h])
      else if h.msgs == [] then (AllSent, [h])
      else
        var (outcome, hs) := Visits(h.msgs, runs[1..]);
        (outcome, [h] + hs)
  }

  method SendAll(messages: seq<Msg>, runs: seq<seq<Event>>) returns (outcome: Outcome, ghost hs: seq<Handler>)
    ensures outcome == Visits(messages, runs).0
    ensures hs == Visits(messages, runs).1
  {
    var list := new MessageList(messages);
    hs := [];
    assert runs[0..] == runs && [] + Visits(messages, runs).1 == Visits(messages, runs).1;
    for i := 0 to |runs|
      invariant fresh(list)
      invariant
        var (o, rest) := Visits(list.items, runs[i..]);
        (o, hs + rest) == Visits(messages, runs)
    {
      assert runs[i..][1..] == runs[i + 1..];
      var handler := new TimeoutHandler(list);
      var ok := handler.RunContainer(runs[i]);
      hs := hs + [handler.State()];
      if !ok {
        return Raised, hs;
      }
      if list.items == [] {
        return AllSent, hs;
      }
      assert forall rest :: hs[..|hs| - 1] + ([hs[|hs| - 1]] + rest) == hs + rest;
    }
    assert runs[|runs|..] == [] && hs + [] == hs;
    outcome := Unsent(|list.items|);
  }

  /** The list that broker `i` is given; for `i == |hs|`, what is left after all of them. */
  function ListAt(msgs: seq<Msg>, hs: seq<Handler>, i: nat): seq<Msg>
    requires i <= |hs|
    decreases i
  {
    if i == 0 then msgs else ListAt(hs[0].msgs, hs[1..], i - 1)
  }

  /** How often a message was settled by the brokers. */
  function SettledCount(hs: seq<Handler>, m: Msg): nat
    decreases |hs|
  {
    if hs == [] then 0 else Count(hs[0].settled, m) + SettledCount(hs[1..], m)
  }

  /** Each handler is consistent with the list that the one before it left. */
  ghost predicate Linked(msgs: seq<Msg>, hs: seq<Handler>)
    decreases |hs|
  {
    hs == [] || (Consistent(hs[0], msgs) && Linked(hs[0].msgs, hs[1..]))
  }

  lemma {:induction false} VisitsLinked(msgs: seq<Msg>, runs: seq<seq<Event>>)
    ensures
      var (o, hs) := Visits(msgs, runs);
      && Linked(msgs, hs)
      && (o == AllSent ==> hs != [] && ListAt(msgs, hs, |hs|) == [])
      && (o.Unsent? ==> o.count == |ListAt(msgs, hs, |hs|)|)
      && (o.Unsent? ==> (runs == [] <==> hs == []) && (runs != [] ==> o.count > 0))
    decreases |runs|
  {
    if runs != [] {
      BrokerConserves(msgs, runs[0]);
      var (h, ok) := RunOf(Started(msgs), runs[0]);
      if ok && h.msgs != [] {
        VisitsLinked(h.msgs, runs[1..]);
        var (_, rest) := Visits(h.msgs, runs[1..]);
        assert ([h] + rest)[1..] == rest;
      } else {
        assert [h][1..] == [];
      }
    }
  }

  /** Up to any broker, nothing is lost: what it is given and what was settled before make up the whole. */
  lemma {:induction false} LinkedConserves(msgs: seq<Msg>, hs: seq<Handler>, i: nat, m: Msg)
    requires Linked(msgs, hs) && i <= |hs|
    ensures Count(msgs, m) == Count(ListAt(msgs, hs, i), m) + SettledCount(hs[..i], m)
    ensures i < |hs| ==> Consistent(hs[i], ListAt(msgs, hs, i))
    decreases i
  {
    if i > 0 {
      LinkedConserves(hs[0].msgs, hs[1..], i - 1, m);
      assert hs[..i][1..] == hs[1..][..i - 1];
    }
  }

  lemma CountsOfNothing(xs: seq<Msg>)
    requires forall m :: Count(xs, m) == 0
    ensures xs == []
  {
    if xs != [] {
      CountIsMultiplicity(xs, xs[0]);
    }
  }

  /**
   A broker is sent all or none of its list, and what it is sent never includes an occurrence of a message that an
   earlier broker settled.
   */
  lemma SendsOnlyUnsettled(msgs: seq<Msg>, runs: seq<seq<Event>>, i: nat)
    requires i < |Visits(msgs, runs).1|
    ensures
      var hs := Visits(msgs, runs).1;
      && (hs[i].sent == [] || hs[i].sent == ListAt(msgs, hs, i))
      && (forall m :: Count(hs[i].sent, m) + SettledCount(hs[..i], m) <= Count(msgs, m))
  {
    var hs := Visits(msgs, runs).1;
    VisitsLinked(msgs, runs);
    LinkedConserves(msgs, hs, i, 0);
    forall m
      ensures Count(hs[i].sent, m) + SettledCount(hs[..i], m) <= Count(msgs, m)
    {
      LinkedConserves(msgs, hs, i, m);
    }
  }

  lemma LeftOver(msgs: seq<Msg>, hs: seq<Handler>)
    requires Linked(msgs, hs)
    ensures forall m :: Count(msgs, m) == Count(ListAt(msgs, hs, |hs|), m) + SettledCount(hs, m)
  {
    assert hs[..|hs|] == hs;
    forall m
      ensures Count(msgs, m) == Count(ListAt(msgs, hs, |hs|), m) + SettledCount(hs, m)
    {
      LinkedConserves(msgs, hs, |hs|, m);
    }
  }

  /** Every occurrence of every message was settled by some broker. */
  ghost predicate AllSettled(msgs: seq<Msg>, hs: seq<Handler>) {
    forall m :: SettledCount(hs, m) == Count(msgs, m)
  }

  /**
   The events of every broker that is visited are expected, which depends on how many messages the brokers before it
   have settled. Brokers after the list is empty are not visited.
   */
  predicate AllRunsExpected(n: nat, runs: seq<seq<Event>>)
    decreases |runs|
  {
    runs == [] ||
    (AllExpected(n, runs[0]) && (Settlements(runs[0]) < n ==> AllRunsExpected(n - Settlements(runs[0]), runs[1..])))
  }

  lemma {:induction false} RaisedIffUnexpected(msgs: seq<Msg>, runs: seq<seq<Event>>)
    ensures Visits(msgs, runs).0 != Raised <==> AllRunsExpected(|msgs|, runs)
    decreases |runs|
  {
    if runs != [] {
      RunsIffExpected(msgs, runs[0]);
      var (h, ok) := RunOf(Started(msgs), runs[0]);
      if ok {
        SettlementsShorten(Started(msgs), runs[0]);
        if h.msgs != [] {
          RaisedIffUnexpected(h.msgs, runs[1..]);
        }
      }
    }
  }

  lemma NormalIffAllSettled(msgs: seq<Msg>, runs: seq<seq<Event>>)
    requires Visits(msgs, runs).0 != Raised
    ensures
      var (o, hs) := Visits(msgs, runs);
      o == AllSent <==> if msgs != [] then AllSettled(msgs, hs) else runs != []
  {
    VisitsLinked(msgs, runs);
    var (o, hs) := Visits(msgs, runs);
    var left := ListAt(msgs, hs, |hs|);
    LeftOver(msgs, hs);
    if o == AllSent {
      assert forall m :: Count(left, m) == 0;
    } else if msgs == [] || AllSettled(msgs, hs) {
      forall m
        ensures Count(left, m) == 0
      {
        assert Count(msgs, m) == Count(left, m) + SettledCount(hs, m);
      }
      CountsOfNothing(left);
    }
  }

  /**
   Sending a non-empty list returns normally exactly when the events of every visited broker are expected and every
   message was settled by some broker; sending an empty list, when they are and there is a broker to try. However it
   ends, each message was settled or is still left, as often as it was given.
   */
  lemma ReturnsIffAllSettled(msgs: seq<Msg>, runs: seq<seq<Event>>)
    ensures
      var (o, hs) := Visits(msgs, runs);
      o == AllSent <==>
      AllRunsExpected(|msgs|, runs) && if msgs != [] then AllSettled(msgs, hs) else runs != []
    ensures
      var hs := Visits(msgs, runs).1;
      forall m :: Count(msgs, m) == Count(ListAt(msgs, hs, |hs|), m) + SettledCount(hs, m)
  {
    RaisedIffUnexpected(msgs, runs);
    if Visits(msgs, runs).0 != Raised {
      NormalIffAllSettled(msgs, runs);
    }
    VisitsLinked(msgs, runs);
    LeftOver(msgs, Visits(msgs, runs).1);
  }

  /** Without repeated messages: once a broker has settled a message, no later broker is sent it. */
  lemma SettledIsNeverResent(msgs: seq<Msg>, runs: seq<seq<Event>>, i: nat, j: nat, m: Msg)
    requires forall x :: Count(msgs, x) <= 1
    requires i < j < |Visits(msgs, runs).1| && m in Visits(msgs, runs).1[i].settled
    ensures m !in Visits(msgs, runs).1[j].sent
  {
    var hs := Visits(msgs, runs).1;
    SendsOnlyUnsettled(msgs, runs, j);
    CountIsMultiplicity(hs[i].settled, m);
    CountIsMultiplicity(hs[j].sent, m);
    SettledAmong(hs[..j], i, m);
  }

  lemma {:induction false} SettledAmong(hs: seq<Handler>, i: nat, m: Msg)
    requires i < |hs|
    ensures Count(hs[i].settled, m) <= SettledCount(hs, m)
    decreases |hs|
  {
    if i > 0 {
      SettledAmong(hs[1..], i - 1, m);
    }
  }
}

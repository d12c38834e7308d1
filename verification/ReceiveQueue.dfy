/** Incoming messages while the data store may not be up: they are acknowledged and queued, a
    retry event is kept outstanding, and the queue is drained when the store answers. */
module ReceiveQueue {
  import opened Wrappers

  const RECONNECT_MAX_COUNT: nat := 20

  type Msg = nat

  /** What happens, with what the outside answers: whether messages are allowed at all, whether
      the store is up, and whether the acknowledgement of a message to be queued went out. */
  datatype Event =
    | Incoming(message: Option<Msg>, policyDisabled: bool, ready: bool, acked: bool)
    | Retry(ready: bool)

  /** The handler's fields, the retry events outstanding, and the history: messages handled at
      once, messages queued, messages handled from the queue, messages dropped unqueued; all
      messages handled, in the order they were; all messages accepted, in the order they came. */
  datatype State = State(queue: seq<Msg>, retries: nat, armed: bool, outstanding: nat,
                         direct: seq<Msg>, queued: seq<Msg>, drained: seq<Msg>, dropped: seq<Msg>,
                         handled: seq<Msg>, accepted: seq<Msg>)

  const Initial: State := State([], 0, false, 0, [], [], [], [], [], [])

  /** A retry can only happen while one is outstanding. */
  predicate Enabled(s: State, e: Event) {
    e.Retry? ==> s.outstanding > 0
  }

  function Enqueue(s: State, message: Option<Msg>, acked: bool): State {
    match message
    case None => s
    case Some(m) =>
      if acked then s.(queue := s.queue + [m], queued := s.queued + [m], accepted := s.accepted + [m])
      else s.(dropped := s.dropped + [m])
  }

  function HandleNow(s: State, message: Option<Msg>): State {
    match message
    case None => s
    case Some(m) => s.(direct := s.direct + [m], handled := s.handled + [m], accepted := s.accepted + [m])
  }

  function Next(s: State, e: Event): State
    requires Enabled(s, e)
  {
    match e
    case Incoming(message, policyDisabled, ready, acked) =>
      if policyDisabled then s
      else if !s.armed && ready then HandleNow(s, message)
      else
        var t := Enqueue(s, message, acked);
        if s.armed then t else t.(outstanding := t.outstanding + 1, armed := true)
    case Retry(ready) =>
      var t := s.(outstanding := s.outstanding - 1);
      if ready then t.(drained := t.drained + t.queue, handled := t.handled + t.queue, queue := [], retries := 0, armed := false)
      else if t.retries + 1 >= RECONNECT_MAX_COUNT then t.(retries := 0, armed := false)
      else t.(retries := t.retries + 1, outstanding := t.outstanding + 1)
  }

  class SmsReceiveHandler {
    var smsBaseMessageQueue: seq<Msg>
    var reconnectDataShareCount: nat
    var alreadySendEvent: bool
    ghost var outstanding: nat
    ghost var direct: seq<Msg>
    ghost var queued: seq<Msg>
    ghost var drained: seq<Msg>
    ghost var dropped: seq<Msg>
    ghost var handled: seq<Msg>
    ghost var accepted: seq<Msg>

    ghost function Abs(): State
      reads this
    {
      State(smsBaseMessageQueue, reconnectDataShareCount, alreadySendEvent, outstanding, direct, queued, drained, dropped,
            handled, accepted)
    }

    constructor ()
      ensures Abs() == Initial
    {
      smsBaseMessageQueue, reconnectDataShareCount, alreadySendEvent := [], 0, false;
      outstanding, direct, queued, drained, dropped, handled, accepted := 0, [], [], [], [], [], [];
    }

    method HandleReceivedSmsWithoutDataShare(message: Option<Msg>, acked: bool)
      modifies this
      ensures Abs() == Enqueue(old(Abs()), message, acked)
    {
      if message.None? {
        return;
      }
      if acked {
        smsBaseMessageQueue := smsBaseMessageQueue + [message.value];
        queued, accepted := queued + [message.value], accepted + [message.value];
      } else {
        dropped := dropped + [message.value];
      }
    }

    method HandleSmsEvent(message: Option<Msg>, policyDisabled: bool, ready: bool, acked: bool)
      modifies this
      ensures Abs() == Next(old(Abs()), Incoming(message, policyDisabled, ready, acked))
      ensures message.Some? && !policyDisabled && ready && !old(alreadySendEvent) ==>
                handled == old(handled) + [message.value] && smsBaseMessageQueue == old(smsBaseMessageQueue)
      ensures message.Some? && !policyDisabled && !(ready && !old(alreadySendEvent)) ==>
                && smsBaseMessageQueue == old(smsBaseMessageQueue) + (if acked then [message.value] else [])
                && alreadySendEvent && handled == old(handled)
    {
      if policyDisabled {
        return;
      }
      if !alreadySendEvent {
        if ready {
          if message.Some? {
            direct, handled, accepted := direct + [message.value], handled + [message.value], accepted + [message.value];
          }
        } else {
          HandleReceivedSmsWithoutDataShare(message, acked);
          outstanding := outstanding + 1;
          alreadySendEvent := true;
        }
      } else {
        HandleReceivedSmsWithoutDataShare(message, acked);
      }
    }

    /** Handles and pops one message after the other, oldest first. */
    method HandleMessageQueue()
      modifies this
      ensures Abs() == old(Abs()).(drained := old(drained) + old(smsBaseMessageQueue),
                                   handled := old(handled) + old(smsBaseMessageQueue),
                                   queue := [], retries := 0, armed := false)
    {
      var queueLength := |smsBaseMessageQueue|;
      for i := 0 to queueLength
        invariant Abs() == old(Abs()).(drained := old(drained) + old(smsBaseMessageQueue)[..i],
                                       handled := old(handled) + old(smsBaseMessageQueue)[..i],
                                       queue := old(smsBaseMessageQueue)[i..])
      {
        drained, handled := drained + [smsBaseMessageQueue[0]], handled + [smsBaseMessageQueue[0]];
        smsBaseMessageQueue := smsBaseMessageQueue[1..];
      }
      assert old(smsBaseMessageQueue)[..queueLength] == old(smsBaseMessageQueue);
      reconnectDataShareCount := 0;
      alreadySendEvent := false;
    }

    method HandleReconnectEvent(ready: bool)
      requires outstanding > 0
      modifies this
      ensures Abs() == Next(old(Abs()), Retry(ready))
      ensures ready ==> && smsBaseMessageQueue == [] && !alreadySendEvent && reconnectDataShareCount == 0
                        && handled == old(handled) + old(smsBaseMessageQueue) && outstanding == old(outstanding) - 1
    {
      outstanding := outstanding - 1;
      if ready {
        HandleMessageQueue();
      } else {
        reconnectDataShareCount := reconnectDataShareCount + 1;
        if reconnectDataShareCount >= RECONNECT_MAX_COUNT {
          reconnectDataShareCount := 0;
          alreadySendEvent := false;
        } else {
          outstanding := outstanding + 1;
        }
      }
    }
  }

  // ---------------------------------------------------------------------------------------
  // Whole runs
  // ---------------------------------------------------------------------------------------

  ghost predicate Run(s: State, events: seq<Event>, t: State)
    decreases |events|
  {
    if events == [] then t == s
    else Enabled(s, events[0]) && Run(Next(s, events[0]), events[1..], t)
  }

  function Messages(events: seq<Event>): seq<Msg> {
    if events == [] then []
    else (match events[0]
          case Incoming(Some(m), false, _, _) => [m]
          case _ => []) + Messages(events[1..])
  }

  ghost predicate Inv(s: State) {
    && s.outstanding == (if s.armed then 1 else 0)
    && s.retries < RECONNECT_MAX_COUNT && (!s.armed ==> s.retries == 0)
    && s.queued == s.drained + s.queue
  }

  ghost function Accounted(s: State): multiset<Msg> {
    multiset(s.direct) + multiset(s.drained) + multiset(s.queue) + multiset(s.dropped)
  }

  /** In every state of every run exactly one retry is outstanding if and only if the handler has
      armed one; the retry count stays below its maximum; messages leave the queue in the order
      they entered it, each once; and every message that came in has been handled at once, handled
      from the queue, dropped unacknowledged, or is still queued. */
  lemma {:induction false} RunKeeps(s: State, events: seq<Event>, t: State)
    requires Inv(s) && Run(s, events, t)
    ensures Inv(t)
    ensures s.queued <= t.queued && s.drained <= t.drained
    ensures Accounted(t) == Accounted(s) + multiset(Messages(events))
    decreases |events|
  {
    hide Next, Accounted, Inv, Messages;
    if events == [] {
      NoMessages(0);
      assert seq(0, _ => Retry(false)) == [] && Accounted(s) + multiset([]) == Accounted(s);
    } else {
      var u := Next(s, events[0]);
      StepKeeps(s, events[0]);
      RunKeeps(u, events[1..], t);
      MessagesCons(events);
      var one, rest := Messages([events[0]]), Messages(events[1..]);
      assert multiset(one + rest) == multiset(one) + multiset(rest);
    }
  }

  lemma {:induction false} StepKeeps(s: State, e: Event)
    requires Inv(s) && Enabled(s, e)
    ensures Inv(Next(s, e))
    ensures s.queued <= Next(s, e).queued && s.drained <= Next(s, e).drained
    ensures Accounted(Next(s, e)) == Accounted(s) + multiset(Messages([e]))
  {
    hide Next, Messages, Accounted, Inv;
    OneMessage(e);
    if e.Retry? {
      assert multiset(Messages([e])) == multiset{};
      RetryKeeps(s, e.ready);
    } else if e.policyDisabled || e.message.None? {
      assert multiset(Messages([e])) == multiset{};
      NothingComes(s, e);
    } else {
      MessageComes(s, e);
    }
  }

  lemma {:induction false} NothingComes(s: State, e: Event)
    requires Inv(s) && e.Incoming? && (e.policyDisabled || e.message.None?)
    ensures Inv(Next(s, e)) && Next(s, e).queued == s.queued && Next(s, e).drained == s.drained
    ensures Accounted(Next(s, e)) == Accounted(s)
  {
  }

  lemma {:induction false} MessageComes(s: State, e: Event)
    requires Inv(s) && e.Incoming? && !e.policyDisabled && e.message.Some?
    ensures Inv(Next(s, e)) && s.queued <= Next(s, e).queued && Next(s, e).drained == s.drained
    ensures Accounted(Next(s, e)) == Accounted(s) + multiset([e.message.value])
  {
    var m := e.message.value;
    if !s.armed && e.ready {
      assert multiset(s.direct + [m]) == multiset(s.direct) + multiset([m]);
    } else {
      hide Accounted;
      EnqueueKeeps(s, m, e.acked);
      SameHistory(Enqueue(s, Some(m), e.acked), Next(s, e));
    }
  }

  lemma SameHistory(s: State, t: State)
    requires s.direct == t.direct && s.drained == t.drained && s.queue == t.queue && s.dropped == t.dropped
    ensures Accounted(s) == Accounted(t)
  {
  }

  lemma {:induction false} OneMessage(e: Event)
    ensures Messages([e]) == if e.Incoming? && e.message.Some? && !e.policyDisabled then [e.message.value] else []
  {
    assert [e][1..] == [];
  }

  lemma {:induction false} EnqueueKeeps(s: State, m: Msg, acked: bool)
    requires s.queued == s.drained + s.queue
    ensures var t := Enqueue(s, Some(m), acked);
            t.queued == t.drained + t.queue && Accounted(t) == Accounted(s) + multiset([m])
  {
    assert multiset(s.queue + [m]) == multiset(s.queue) + multiset([m]);
    assert multiset(s.dropped + [m]) == multiset(s.dropped) + multiset([m]);
  }

  lemma {:induction false} RetryKeeps(s: State, ready: bool)
    requires Inv(s) && Enabled(s, Retry(ready))
    ensures Inv(Next(s, Retry(ready)))
    ensures s.queued == Next(s, Retry(ready)).queued && s.drained <= Next(s, Retry(ready)).drained
    ensures Accounted(Next(s, Retry(ready))) == Accounted(s)
  {
    if ready {
      assert multiset(s.drained + s.queue) == multiset(s.drained) + multiset(s.queue);
    }
  }

  /** The store stays down: after the last of 20 retries nothing is outstanding any more and the
      queue is as it was. */
  lemma {:induction false} GivesUp(s: State, k: nat)
    requires Inv(s) && s.armed && s.retries + k == RECONNECT_MAX_COUNT
    ensures Run(s, seq(k, _ => Retry(false)), s.(armed := false, retries := 0, outstanding := 0))
    decreases k
  {
    var events := seq(k, _ => Retry(false));
    assert events[1..] == seq(k - 1, _ => Retry(false));
    if k > 1 {
      GivesUp(Next(s, Retry(false)), k - 1);
    } else {
      assert events[1..] == [];
    }
  }

  lemma {:induction false} RunConcat(s: State, a: seq<Event>, u: State, b: seq<Event>, t: State)
    requires Run(s, a, u) && Run(u, b, t)
    ensures Run(s, a + b, t)
    decreases |a|
  {
    if a == [] {
      assert a + b == b;
    } else {
      assert (a + b)[1..] == a[1..] + b;
      RunConcat(Next(s, a[0]), a[1..], u, b, t);
    }
  }

  // ---------------------------------------------------------------------------------------
  // What is handled
  // ---------------------------------------------------------------------------------------

  /** A retry that finds the store up handles the whole queue and disarms; one that finds it down
      handles nothing, and is sent again unless it was the last. */
  lemma {:induction false} RetryDoes(s: State, ready: bool)
    requires s.outstanding > 0
    ensures var t := Next(s, Retry(ready));
            && t.queued == s.queued && t.direct == s.direct && t.dropped == s.dropped && t.accepted == s.accepted
            && (ready ==>
                  && t.queue == [] && t.handled == s.handled + s.queue && t.drained == s.drained + s.queue
                  && !t.armed && t.retries == 0 && t.outstanding == s.outstanding - 1)
            && (!ready ==>
                  && t.queue == s.queue && t.handled == s.handled && t.drained == s.drained
                  && (s.retries < 19 ==> t.retries == s.retries + 1 && t.armed == s.armed && t.outstanding == s.outstanding)
                  && (s.retries >= 19 ==> t.retries == 0 && !t.armed && t.outstanding == s.outstanding - 1))
  {
  }

  /** A message is handled at once with the store up and nothing armed; otherwise it is queued if it
      is acknowledged and dropped if not, and a retry is outstanding. */
  lemma {:induction false} IncomingDoes(s: State, m: Msg, ready: bool, acked: bool)
    ensures var t := Next(s, Incoming(Some(m), false, ready, acked));
            && t.retries == s.retries && t.drained == s.drained
            && (ready && !s.armed ==>
                  && t.handled == s.handled + [m] && t.direct == s.direct + [m] && t.accepted == s.accepted + [m]
                  && t.queue == s.queue && !t.armed && t.outstanding == s.outstanding)
            && (!(ready && !s.armed) ==>
                  && t.handled == s.handled && t.armed && t.outstanding == s.outstanding + (if s.armed then 0 else 1)
                  && (acked ==> t.queue == s.queue + [m] && t.accepted == s.accepted + [m] && t.dropped == s.dropped)
                  && (!acked ==> t.queue == s.queue && t.accepted == s.accepted && t.dropped == s.dropped + [m]))
  {
  }

  /** Every accepted message has been handled or is queued, each as often as it was accepted. */
  ghost predicate AllKept(s: State) {
    multiset(s.accepted) == multiset(s.handled) + multiset(s.queue)
  }

  lemma {:induction false} StepAllKept(s: State, e: Event)
    requires AllKept(s) && Enabled(s, e)
    ensures AllKept(Next(s, e))
  {
    match e
    case Retry(ready) =>
      assert multiset(s.handled + s.queue) == multiset(s.handled) + multiset(s.queue);
      assert multiset(s.accepted) == multiset(s.handled + s.queue) + multiset([]);
    case Incoming(message, policyDisabled, ready, acked) =>
      if message.Some? && !policyDisabled {
        var m := message.value;
        IncomingDoes(s, m, ready, acked);
        hide Next;
        assert multiset(s.handled + [m]) == multiset(s.handled) + multiset([m]);
        assert multiset(s.queue + [m]) == multiset(s.queue) + multiset([m]);
        assert multiset(s.accepted + [m]) == multiset(s.accepted) + multiset([m]);
      }
  }

  lemma {:induction false} RunAllKept(s: State, events: seq<Event>, t: State)
    requires AllKept(s) && Run(s, events, t)
    ensures AllKept(t)
    decreases |events|
  {
    if events != [] {
      StepAllKept(s, events[0]);
      hide Next, AllKept;
      RunAllKept(Next(s, events[0]), events[1..], t);
    }
  }

  /** After any run that ends with a retry while the store is up, every accepted message has been
      handled, as often as it came, and nothing is queued or outstanding. */
  lemma {:induction false} DrainedInTheEnd(events: seq<Event>, s: State)
    requires Run(Initial, events, s) && s.outstanding > 0
    ensures var t := Next(s, Retry(true));
            && Run(Initial, events + [Retry(true)], t)
            && t.queue == [] && !t.armed && t.outstanding == 0 && multiset(t.handled) == multiset(t.accepted)
  {
    hide Next, Run, AllKept;
    var t := Next(s, Retry(true));
    OneStep(s, Retry(true));
    RunConcat(Initial, events, s, [Retry(true)], t);
    assert AllKept(Initial) by { StartsKept(); }
    RunAllKept(Initial, events + [Retry(true)], t);
    RetryDoes(s, true);
    RunKeeps(Initial, events, s);
    KeptHandled(t);
  }

  lemma StartsKept()
    ensures AllKept(Initial)
  {
  }

  lemma KeptHandled(t: State)
    requires AllKept(t) && t.queue == []
    ensures multiset(t.handled) == multiset(t.accepted)
  {
  }

  // ---------------------------------------------------------------------------------------
  // Order of arrival
  // ---------------------------------------------------------------------------------------

  /** A message comes in that is handled at once although older ones are still queued. */
  predicate Overtakes(s: State, e: Event) {
    e.Incoming? && e.message.Some? && !e.policyDisabled && e.ready && !s.armed && s.queue != []
  }

  /** Some event of the run overtakes. */
  ghost predicate MeetsOvertaking(s: State, events: seq<Event>)
    decreases |events|
  {
    events != [] && Enabled(s, events[0]) && (Overtakes(s, events[0]) || MeetsOvertaking(Next(s, events[0]), events[1..]))
  }

  /** Handled and queued messages together are in the order in which they came. */
  predicate InArrivalOrder(s: State) {
    s.handled + s.queue == s.accepted
  }

  /** The messages that come in differ from each other and from those accepted before. */
  ghost predicate Distinguished(accepted: seq<Msg>, ms: seq<Msg>) {
    && (forall i, j :: 0 <= i < j < |ms| ==> ms[i] != ms[j])
    && (forall m :: m in ms ==> m !in accepted)
  }

  /** Messages are handled in the order in which they came exactly in those runs in which no message
      comes in while nothing is armed, the store is up and older messages are still queued. */
  lemma {:induction false} KeepsArrivalOrder(s: State, events: seq<Event>, t: State)
    requires Run(s, events, t) && InArrivalOrder(s) && Distinguished(s.accepted, Messages(events))
    ensures InArrivalOrder(t) <==> !MeetsOvertaking(s, events)
    decreases |events|
  {
    if events != [] {
      var e := events[0];
      var u := Next(s, e);
      hide Next, InArrivalOrder;
      StepOrder(s, events);
      if Overtakes(s, e) {
        StaysMixed(u, events[1..], t);
      } else {
        KeepsArrivalOrder(u, events[1..], t);
      }
    }
  }

  /** An accepted message has been handled before an older one. */
  ghost predicate Mixed(s: State) {
    exists i :: 0 <= i < |s.handled| && i < |s.accepted| && s.handled[i] != s.accepted[i]
  }

  lemma {:induction false} StepOrder(s: State, events: seq<Event>)
    requires events != [] && Enabled(s, events[0]) && InArrivalOrder(s) && Distinguished(s.accepted, Messages(events))
    ensures var u := Next(s, events[0]);
            && Distinguished(u.accepted, Messages(events[1..]))
            && (if Overtakes(s, events[0]) then Mixed(u) else InArrivalOrder(u))
  {
    var e, u, rest := events[0], Next(s, events[0]), Messages(events[1..]);
    MessagesCons(events);
    hide Messages;
    if e.Incoming? && e.message.Some? && !e.policyDisabled {
      var m := e.message.value;
      DistinguishedTail(s.accepted, m, rest);
      hide Distinguished, Next;
      ComingOrder(s, e);
    } else {
      hide Distinguished, Next;
      assert [] + rest == rest;
      RestingOrder(s, e);
    }
  }

  lemma {:induction false} ComingOrder(s: State, e: Event)
    requires e.Incoming? && e.message.Some? && !e.policyDisabled && InArrivalOrder(s) && e.message.value !in s.accepted
    ensures var u := Next(s, e);
            && (u.accepted == s.accepted || u.accepted == s.accepted + [e.message.value])
            && (if Overtakes(s, e) then Mixed(u) else InArrivalOrder(u))
  {
    var m, u := e.message.value, Next(s, e);
    if Overtakes(s, e) {
      assert s.accepted[|s.handled|] == s.queue[0] && u.handled[|s.handled|] == m;
      assert s.queue[0] in s.accepted;
      assert u.handled[|s.handled|] != u.accepted[|s.handled|];
    } else if !s.armed && e.ready {
      assert s.handled + [] == s.handled;
    } else {
      assert s.handled + (s.queue + [m]) == (s.handled + s.queue) + [m];
    }
  }

  lemma {:induction false} RestingOrder(s: State, e: Event)
    requires Enabled(s, e) && InArrivalOrder(s) && (e.Incoming? ==> e.message.None? || e.policyDisabled)
    ensures Next(s, e).accepted == s.accepted && InArrivalOrder(Next(s, e)) && !Overtakes(s, e)
  {
    if e.Retry? && e.ready {
      assert (s.handled + s.queue) + [] == s.handled + s.queue;
    }
  }

  lemma {:induction false} DistinguishedTail(accepted: seq<Msg>, m: Msg, rest: seq<Msg>)
    requires Distinguished(accepted, [m] + rest)
    ensures Distinguished(accepted, rest) && Distinguished(accepted + [m], rest) && m !in accepted
  {
    var ms := [m] + rest;
    assert ms[0] == m && forall i :: 0 <= i < |rest| ==> ms[i + 1] == rest[i];
  }

  lemma {:induction false} MessagesCons(events: seq<Event>)
    requires events != []
    ensures Messages(events) == Messages([events[0]]) + Messages(events[1..])
    ensures Messages([events[0]]) ==
            if events[0].Incoming? && events[0].message.Some? && !events[0].policyDisabled then [events[0].message.value] else []
  {
    OneMessage(events[0]);
    assert events == [events[0]] + events[1..];
    MessagesConcat([events[0]], events[1..]);
  }

  lemma {:induction false} StaysMixed(s: State, events: seq<Event>, t: State)
    requires Run(s, events, t) && Mixed(s)
    ensures Mixed(t) && !InArrivalOrder(t)
    decreases |events|
  {
    if events == [] {
      var i :| 0 <= i < |s.handled| && i < |s.accepted| && s.handled[i] != s.accepted[i];
      assert (s.handled + s.queue)[i] != s.accepted[i];
    } else {
      var u := Next(s, events[0]);
      var i :| 0 <= i < |s.handled| && i < |s.accepted| && s.handled[i] != s.accepted[i];
      assert u.handled[i] == s.handled[i] && u.accepted[i] == s.accepted[i];
      StaysMixed(u, events[1..], t);
    }
  }

  /** Giving up can leave a message queued with nothing left to drain it, and a message that comes
      in later is then handled before it: the order kept is that of the queue, not of arrival. */
  lemma Overtaken(first: Msg, second: Msg)
    ensures exists events, t :: Run(Initial, events, t) && t.queue == [first] && t.direct == [second] && !t.armed
                                && Messages(events) == [first, second]
  {
    var e, f := Incoming(Some(first), false, false, true), Incoming(Some(second), false, true, true);
    var fails := seq(RECONNECT_MAX_COUNT, _ => Retry(false));
    var s := Next(Initial, e);
    GivesUp(s, RECONNECT_MAX_COUNT);
    var u := s.(armed := false, retries := 0, outstanding := 0);
    var t := Next(u, f);
    OneStep(Initial, e);
    OneStep(u, f);
    RunConcat(Initial, [e], s, fails, u);
    RunConcat(Initial, [e] + fails, u, [f], t);
    MessagesConcat([e] + fails, [f]);
    MessagesConcat([e], fails);
    NoMessages(RECONNECT_MAX_COUNT);
    assert [e][1..] == [] && [f][1..] == [];
    assert Run(Initial, [e] + fails + [f], t);
  }

  lemma OneStep(s: State, e: Event)
    requires Enabled(s, e)
    ensures Run(s, [e], Next(s, e))
  {
    assert [e][1..] == [];
    assert Run(Next(s, e), [], Next(s, e));
  }

  lemma {:induction false} MessagesConcat(a: seq<Event>, b: seq<Event>)
    ensures Messages(a + b) == Messages(a) + Messages(b)
  {
    if a == [] {
      assert a + b == b;
    } else {
      assert (a + b)[1..] == a[1..] + b;
      MessagesConcat(a[1..], b);
    }
  }

  lemma {:induction false} NoMessages(k: nat)
    ensures Messages(seq(k, _ => Retry(false))) == []
  {
    if k > 0 {
      assert seq(k, _ => Retry(false))[1..] == seq(k - 1, _ => Retry(false));
      NoMessages(k - 1);
    }
  }
}

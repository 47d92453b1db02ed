/** `ChatApplication.watch_run`: an event log followed across disconnects, overflows and handlers that
    lose their own connection, with bounded reconnects. */
module RunWatch {
  import opened Wrappers

  /** What of an event the watcher's control flow depends on. */
  datatype Body =
    | Plain                                // printed, or ignored
    | Prompting                            // an approval or a question: its handler calls the API
    | Overflow(lastSequence: Option<int>)
    | Terminal(status: string)

  /** A server-sent event; a transient one has no id. */
  datatype Event = Event(id: Option<nat>, body: Body)

  datatype Fault = Nothing | ConnectionLost | OtherFailure

  /** A received event, and what goes wrong while it is handled. */
  datatype Item = Item(event: Event, fault: Fault)

  /** One opened stream: what it yields, and whether it then breaks off with another failure than the
      loss of its connection. */
  datatype Stream = Stream(items: seq<Item>, fails: bool)

  /** The k-th stream to be opened, resuming after some event id. */
  type Server = (nat, Option<nat>) -> Stream

  datatype End = Reconnect | Done(status: string) | Raised

  datatype Consumed = Consumed(last: Option<nat>, handled: seq<Event>, end: End)

  datatype Outcome = Outcome(end: End, handled: seq<Event>, last: Option<nat>, streams: nat)

  function OrZero(last: Option<nat>): nat {
    if last.Some? then last.value else 0
  }

  /** The id bookkeeping at the head of `_handle_event`, and the overflow branch. */
  function LastAfter(last: Option<nat>, e: Event): Option<nat> {
    var seen := if e.id.Some? then e.id else last;
    if e.body.Overflow? && e.body.lastSequence.Some? && e.body.lastSequence.value >= 0 then
      Some(if OrZero(seen) >= e.body.lastSequence.value then OrZero(seen) else e.body.lastSequence.value)
    else seen
  }

  /** How one event leaves the loop over a stream; None to go on with the next one. */
  function Leaves(item: Item): Option<End> {
    match item.event.body
    case Overflow(_) => Some(Reconnect)
    case Terminal(status) => Some(Done(status))
    case Prompting =>
      if item.fault == ConnectionLost then Some(Reconnect)
      else if item.fault == OtherFailure then Some(Raised)
      else None
    case Plain => None
  }

  /** After this event the watcher reads on: it is neither an overflow nor terminal, and if it asks the user
      something, its handler came through. */
  predicate ReadsOn(item: Item) {
    item.event.body.Plain? || (item.event.body.Prompting? && item.fault == Nothing)
  }

  /** This event ends the stream, and how. */
  predicate EndsWith(item: Item, end: End) {
    || (item.event.body.Overflow? && end == Reconnect)
    || (item.event.body.Terminal? && end == Done(item.event.body.status))
    || (item.event.body.Prompting? && item.fault == ConnectionLost && end == Reconnect)
    || (item.event.body.Prompting? && item.fault == OtherFailure && end == Raised)
  }

  function Consume(last: Option<nat>, stream: Stream): Consumed
    decreases |stream.items|
  {
    if stream.items == [] then Consumed(last, [], if stream.fails then Raised else Reconnect)
    else
      var item := stream.items[0];
      var last' := LastAfter(last, item.event);
      if Leaves(item).Some? then Consumed(last', [item.event], Leaves(item).value)
      else
        var rest := Consume(last', Stream(stream.items[1..], stream.fails));
        After([item.event], rest)
  }

  function Watch(server: Server, streams: nat, last: Option<nat>, attempts: int, total: int,
                 maxAttempts: int, maxTotal: int): Outcome
    decreases maxTotal - total
  {
    var consumed := Consume(last, server(streams, last));
    if !consumed.end.Reconnect? then Outcome(consumed.end, consumed.handled, consumed.last, streams + 1)
    else
      var attempts' := if server(streams, last).items == [] then attempts + 1 else 1;
      if attempts' > maxAttempts || total + 1 > maxTotal then
        Outcome(Reconnect, consumed.handled, consumed.last, streams + 1)
      else
        var rest := Watch(server, streams + 1, consumed.last, attempts', total + 1, maxAttempts, maxTotal);
        Earlier(consumed.handled, rest)
  }

  /** `_WatchState`, as far as resuming depends on it. */
  class WatchState {
    var lastEventId: Option<nat>
    var terminalStatus: Option<string>
    ghost var handled: seq<Event>

    constructor ()
      ensures lastEventId.None? && terminalStatus.None? && handled == []
    {
      lastEventId, terminalStatus, handled := None, None, [];
    }

    /** `_handle_event`; None to go on, and nothing is undone when its handler fails. */
    method HandleEvent(item: Item) returns (left: Option<End>)
      modifies this
      ensures left == Leaves(item) && lastEventId == LastAfter(old(lastEventId), item.event)
      ensures if left.None? then ReadsOn(item) else EndsWith(item, left.value)
      ensures !item.event.body.Overflow? ==>
                lastEventId == if item.event.id.Some? then item.event.id else old(lastEventId)
      ensures var named := item.event.body;
              named.Overflow? && named.lastSequence.Some? && named.lastSequence.value >= 0 ==>
                && lastEventId.Some? && lastEventId.value >= named.lastSequence.value
                && lastEventId.value >= OrZero(if item.event.id.Some? then item.event.id else old(lastEventId))
                && lastEventId.value in
                   {named.lastSequence.value, OrZero(if item.event.id.Some? then item.event.id else old(lastEventId))}
      ensures handled == old(handled) + [item.event]
      ensures terminalStatus == if item.event.body.Terminal? then Some(item.event.body.status) else old(terminalStatus)
    {
      var event := item.event;
      handled := handled + [event];
      if event.id.Some? {
        lastEventId := event.id;
      }
      if event.body.Prompting? {
        if item.fault == ConnectionLost {
          return Some(Reconnect);
        }
        if item.fault == OtherFailure {
          return Some(Raised);
        }
      } else if event.body.Overflow? {
        var sequence := event.body.lastSequence;
        if sequence.Some? && sequence.value >= 0 {
          lastEventId := Some(if OrZero(lastEventId) >= sequence.value then OrZero(lastEventId) else sequence.value);
        }
        return Some(Reconnect);
      } else if event.body.Terminal? {
        terminalStatus := Some(event.body.status);
        return Some(Done(event.body.status));
      }
      left := None;
    }

    /** The inner loop over one stream. */
    method ReadStream(stream: Stream) returns (end: End, ghost done: seq<Event>)
      modifies this
      ensures handled == old(handled) + done
      ensures Consume(old(lastEventId), stream) == Consumed(lastEventId, done, end)
    {
      done := [];
      ghost var rest := stream;
      for i := 0 to |stream.items|
        invariant rest == Stream(stream.items[i..], stream.fails)
        invariant handled == old(handled) + done
        invariant Consume(old(lastEventId), stream) == After(done, Consume(lastEventId, rest))
      {
        ConsumeStep(done, lastEventId, rest);
        var left := HandleEvent(stream.items[i]);
        done := done + [stream.items[i].event];
        rest := Stream(rest.items[1..], rest.fails);
        if left.Some? {
          return left.value, done;
        }
      }
      end := if stream.fails then Raised else Reconnect;
      assert done + [] == done;
    }
  }

  lemma ConsumeStep(done: seq<Event>, last: Option<nat>, stream: Stream)
    requires stream.items != []
    ensures var item, rest := stream.items[0], Stream(stream.items[1..], stream.fails);
            After(done, Consume(last, stream)) ==
              if Leaves(item).Some? then Consumed(LastAfter(last, item.event), done + [item.event], Leaves(item).value)
              else After(done + [item.event], Consume(LastAfter(last, item.event), rest))
  {
    AfterAfter(done, stream.items[0].event,
               Consume(LastAfter(last, stream.items[0].event), Stream(stream.items[1..], stream.fails)));
  }

  function After(done: seq<Event>, rest: Consumed): Consumed {
    rest.(handled := done + rest.handled)
  }

  lemma AfterAfter(done: seq<Event>, e: Event, rest: Consumed)
    ensures After(done, After([e], rest)) == After(done + [e], rest)
  {
    assert done + ([e] + rest.handled) == done + [e] + rest.handled;
  }

  function Earlier(done: seq<Event>, rest: Outcome): Outcome {
    rest.(handled := done + rest.handled)
  }

  lemma EarlierEarlier(done: seq<Event>, more: seq<Event>, rest: Outcome)
    ensures Earlier(done, Earlier(more, rest)) == Earlier(done + more, rest)
  {
    assert done + (more + rest.handled) == done + more + rest.handled;
  }

  /** `watch_run`: `Reconnect` as the end means that the reconnect limit was reached. */
  method WatchRun(server: Server, maxAttempts: int, maxTotal: int) returns (end: End, state: WatchState, streams: nat)
    ensures fresh(state)
    ensures Outcome(end, state.handled, state.lastEventId, streams)
         == Watch(server, 0, None, 0, 0, maxAttempts, maxTotal)
  {
    hide Consume;
    state := new WatchState();
    streams := 0;
    var attempts, total := 0, 0;
    assert forall o: Outcome :: Earlier([], o).handled == o.handled;
    while true
      invariant fresh(state)
      invariant Watch(server, 0, None, 0, 0, maxAttempts, maxTotal)
             == Earlier(state.handled,
                        Watch(server, streams, state.lastEventId, attempts, total, maxAttempts, maxTotal))
      decreases maxTotal - total
    {
      var stream := server(streams, state.lastEventId);
      ghost var before, last, was := state.handled, state.lastEventId, attempts;
      ghost var done: seq<Event>;
      if stream.items != [] {
        attempts := 0;
      }
      end, done := state.ReadStream(stream);
      assert Watch(server, streams, last, was, total, maxAttempts, maxTotal).handled[..0] == [];
      streams := streams + 1;
      if !end.Reconnect? {
        return;
      }
      attempts := attempts + 1;
      total := total + 1;
      if attempts > maxAttempts || total > maxTotal {
        return;
      }
      EarlierEarlier(before, done, Watch(server, streams, state.lastEventId, attempts, total, maxAttempts, maxTotal));
    }
  }

  // ---- the server's side ----

  /** The durable events of a run: positive ids, strictly increasing. */
  predicate IsLog(log: seq<Event>) {
    && (forall i | 0 <= i < |log| :: log[i].id.Some? && log[i].id.value > 0)
    && forall i, j | 0 <= i < j < |log| :: OrZero(log[i].id) < OrZero(log[j].id)
  }

  /** How many entries of the log have been passed at id `n`. */
  function Passed(log: seq<Event>, n: nat): (k: nat)
    ensures k <= |log|
  {
    if log == [] then 0
    else if OrZero(log[|log| - 1].id) <= n then |log|
    else Passed(log[..|log| - 1], n)
  }

  function Durable(events: seq<Event>): seq<Event> {
    if events == [] then []
    else
      var last := events[|events| - 1];
      Durable(events[..|events| - 1]) + if last.id.Some? then [last] else []
  }

  function Events(items: seq<Item>): seq<Event> {
    seq(|items|, i requires 0 <= i < |items| => items[i].event)
  }

  /** `events` are the entries of the log from position `c` on. */
  predicate NextIn(log: seq<Event>, c: nat, events: seq<Event>) {
    c + |events| <= |log| && log[c..c + |events|] == events
  }

  /** A stream that resumes after an id yields the log's later events from there on, in order and
      without gaps, with any transient events in between, for as long as it lasts. Only overflow
      frames, which are transient, and terminal ones, which are durable, steer the watcher. */
  ghost predicate Serves(log: seq<Event>, server: Server) {
    forall k, last :: ServesStream(log, last, server(k, last).items)
  }

  predicate ServesStream(log: seq<Event>, last: Option<nat>, items: seq<Item>) {
    && NextIn(log, Passed(log, OrZero(last)), Durable(Events(items)))
    && forall i | 0 <= i < |items| ::
         (items[i].event.body.Overflow? ==> items[i].event.id.None?)
         && (items[i].event.body.Terminal? ==> items[i].event.id.Some?)
  }

  // ---- positions in the log ----

  /** `Passed` splits the log at `n`. */
  lemma {:induction false} PassedSplits(log: seq<Event>, n: nat)
    requires IsLog(log)
    ensures forall i | 0 <= i < Passed(log, n) :: OrZero(log[i].id) <= n
    ensures forall i | Passed(log, n) <= i < |log| :: OrZero(log[i].id) > n
  {
    if log != [] && OrZero(log[|log| - 1].id) > n {
      PassedSplits(log[..|log| - 1], n);
    }
  }

  lemma PassedIs(log: seq<Event>, n: nat, k: nat)
    requires IsLog(log) && k <= |log|
    requires k > 0 ==> OrZero(log[k - 1].id) <= n
    requires k < |log| ==> OrZero(log[k].id) > n
    ensures Passed(log, n) == k
  {
    PassedSplits(log, n);
  }

  lemma PassedMonotone(log: seq<Event>, m: nat, n: nat)
    requires IsLog(log) && m <= n
    ensures Passed(log, m) <= Passed(log, n)
  {
    PassedSplits(log, m);
    PassedSplits(log, n);
  }

  lemma {:induction false} DurableConcat(a: seq<Event>, b: seq<Event>)
    ensures Durable(a + b) == Durable(a) + Durable(b)
  {
    if b == [] {
      assert a + b == a;
    } else {
      assert (a + b)[..|a + b| - 1] == a + b[..|b| - 1];
      DurableConcat(a, b[..|b| - 1]);
    }
  }

  lemma DurableOne(e: Event)
    ensures Durable([e]) == if e.id.Some? then [e] else []
  {
    assert [e][..0] == [];
  }

  // ---- the watcher's place in the log ----

  /** The resume position after some events, wherever the streams they came from began and ended. */
  function LastOf(last: Option<nat>, handled: seq<Event>): Option<nat> {
    if handled == [] then last else LastAfter(LastOf(last, handled[..|handled| - 1]), handled[|handled| - 1])
  }

  /** How many entries of the log lie behind that position. */
  function Place(log: seq<Event>, last: Option<nat>, handled: seq<Event>): nat {
    Passed(log, OrZero(LastOf(last, handled)))
  }

  /** What may come at a position: a durable event is the log's next entry, an overflow is transient. */
  predicate FitsAt(log: seq<Event>, last: Option<nat>, e: Event) {
    && (e.id.Some? ==> Passed(log, OrZero(last)) < |log| && e == log[Passed(log, OrZero(last))])
    && (e.body.Overflow? ==> e.id.None?)
  }

  predicate Aligned(log: seq<Event>, last: Option<nat>, handled: seq<Event>) {
    handled == [] ||
    (var before := handled[..|handled| - 1];
     Aligned(log, last, before) && FitsAt(log, LastOf(last, before), handled[|handled| - 1]))
  }

  lemma OneEvent(log: seq<Event>, last: Option<nat>, e: Event)
    requires IsLog(log) && FitsAt(log, last, e)
    ensures var c, c' := Passed(log, OrZero(last)), Passed(log, OrZero(LastAfter(last, e)));
            && OrZero(last) <= OrZero(LastAfter(last, e)) && c <= c'
            && (e.id.Some? ==> c' == c + 1 && OrZero(last) < OrZero(e.id) == OrZero(LastAfter(last, e)))
            && (e.id.None? && !e.body.Overflow? ==> LastAfter(last, e) == last)
  {
    PassedSplits(log, OrZero(last));
    if e.id.Some? {
      PassedIs(log, e.id.value, Passed(log, OrZero(last)) + 1);
    } else {
      PassedMonotone(log, OrZero(last), OrZero(LastAfter(last, e)));
    }
  }

  lemma {:induction false} LastOfConcat(last: Option<nat>, a: seq<Event>, b: seq<Event>)
    ensures LastOf(last, a + b) == LastOf(LastOf(last, a), b)
  {
    hide LastAfter;
    if b == [] {
      assert a + b == a;
    } else {
      assert (a + b)[..|a + b| - 1] == a + b[..|b| - 1];
      LastOfConcat(last, a, b[..|b| - 1]);
    }
  }

  lemma {:induction false} AlignedConcat(log: seq<Event>, last: Option<nat>, a: seq<Event>, b: seq<Event>)
    ensures Aligned(log, last, a + b) <==> Aligned(log, last, a) && Aligned(log, LastOf(last, a), b)
  {
    hide FitsAt, LastOf;
    if b == [] {
      assert a + b == a;
    } else {
      assert (a + b)[..|a + b| - 1] == a + b[..|b| - 1];
      AlignedConcat(log, last, a, b[..|b| - 1]);
      LastOfConcat(last, a, b[..|b| - 1]);
    }
  }

  lemma AlignedOne(log: seq<Event>, last: Option<nat>, e: Event)
    ensures Aligned(log, last, [e]) == FitsAt(log, last, e) && LastOf(last, [e]) == LastAfter(last, e)
  {
    hide FitsAt, LastAfter;
    assert [e][..0] == [];
  }

  lemma NextInTail(log: seq<Event>, c: nat, first: Event, rest: seq<Event>)
    requires NextIn(log, c, [first] + rest)
    ensures c < |log| && log[c] == first && NextIn(log, c + 1, rest)
  {
    var all := log[c..c + 1 + |rest|];
    assert all[0] == log[c] && all[1..] == log[c + 1..c + 1 + |rest|];
    assert ([first] + rest)[1..] == rest;
  }

  /** The first event of what a server goes on to send fits, and what follows it fits behind it. */
  lemma FirstFits(log: seq<Event>, last: Option<nat>, e: Event, later: seq<Event>)
    requires IsLog(log) && NextIn(log, Passed(log, OrZero(last)), Durable([e] + later))
    requires e.body.Overflow? ==> e.id.None?
    ensures FitsAt(log, last, e)
    ensures !e.body.Overflow? ==> NextIn(log, Passed(log, OrZero(LastAfter(last, e))), Durable(later))
  {
    hide Passed, Durable, IsLog, NextIn;
    DurableConcat([e], later);
    DurableOne(e);
    if e.id.Some? {
      NextInTail(log, Passed(log, OrZero(last)), e, Durable(later));
    } else {
      assert [] + Durable(later) == Durable(later);
    }
    OneEvent(log, last, e);
  }

  /** What a watcher dispatches of one stream fits at its resume position, event by event, and its position
      afterwards is the one these events lead to. */
  lemma {:induction false} StreamAdvances(log: seq<Event>, last: Option<nat>, stream: Stream)
    requires IsLog(log) && ServesStream(log, last, stream.items)
    ensures var consumed := Consume(last, stream);
            Aligned(log, last, consumed.handled) && consumed.last == LastOf(last, consumed.handled)
    decreases |stream.items|
  {
    if stream.items != [] {
      var item, rest := stream.items[0], Stream(stream.items[1..], stream.fails);
      var e := item.event;
      FirstOfStream(log, last, stream.items);
      hide ServesStream, Aligned, LastOf, FitsAt, LastAfter, IsLog;
      AlignedOne(log, last, e);
      if Leaves(item).None? {
        StreamAdvances(log, LastAfter(last, e), rest);
        var later := Consume(LastAfter(last, e), rest).handled;
        AlignedConcat(log, last, [e], later);
        LastOfConcat(last, [e], later);
      }
    }
  }

  lemma FirstOfStream(log: seq<Event>, last: Option<nat>, items: seq<Item>)
    requires IsLog(log) && items != [] && ServesStream(log, last, items)
    ensures FitsAt(log, last, items[0].event)
    ensures Leaves(items[0]).None? ==> ServesStream(log, LastAfter(last, items[0].event), items[1..])
  {
    hide Passed, Durable, FitsAt, LastAfter, IsLog;
    assert Events(items) == [items[0].event] + Events(items[1..]);
    FirstFits(log, last, items[0].event, Events(items[1..]));
  }

  // ---- at most once, and in order ----

  /** Ids of the dispatched durable events strictly increase, and every one is an entry of the log. */
  predicate InLogOrder(log: seq<Event>, durable: seq<Event>) {
    && (forall i | 0 <= i < |durable| :: durable[i] in log)
    && forall i, j | 0 <= i < j < |durable| :: OrZero(durable[i].id) < OrZero(durable[j].id)
  }

  /** All their ids lie behind one position and not behind another. */
  predicate Between(low: Option<nat>, durable: seq<Event>, high: Option<nat>) {
    OrZero(low) <= OrZero(high) &&
    forall i | 0 <= i < |durable| :: OrZero(low) < OrZero(durable[i].id) <= OrZero(high)
  }

  lemma {:induction false} AlignedOrder(log: seq<Event>, last: Option<nat>, handled: seq<Event>)
    requires IsLog(log) && Aligned(log, last, handled)
    ensures InLogOrder(log, Durable(handled)) && Between(last, Durable(handled), LastOf(last, handled))
  {
    if handled != [] {
      hide LastAfter, Passed, IsLog, InLogOrder, Between;
      var n := |handled| - 1;
      var e := handled[n];
      AlignedOrder(log, last, handled[..n]);
      OneEvent(log, LastOf(last, handled[..n]), e);
      if e.id.Some? {
        OrderGrows(log, last, Durable(handled[..n]), LastOf(last, handled[..n]), e, LastOf(last, handled));
      } else {
        Widens(last, Durable(handled), LastOf(last, handled[..n]), LastOf(last, handled));
      }
    } else {
      NothingInOrder(log, last);
    }
  }

  lemma OrderGrows(log: seq<Event>, low: Option<nat>, durable: seq<Event>, middle: Option<nat>, e: Event,
                   high: Option<nat>)
    requires InLogOrder(log, durable) && Between(low, durable, middle) && e in log
    requires OrZero(middle) < OrZero(e.id) <= OrZero(high)
    ensures InLogOrder(log, durable + [e]) && Between(low, durable + [e], high)
  {
    var all := durable + [e];
    assert forall i | 0 <= i < |durable| :: all[i] == durable[i];
  }

  lemma Widens(low: Option<nat>, durable: seq<Event>, middle: Option<nat>, high: Option<nat>)
    requires Between(low, durable, middle) && OrZero(middle) <= OrZero(high)
    ensures Between(low, durable, high)
  {
  }

  lemma NothingInOrder(log: seq<Event>, last: Option<nat>)
    ensures InLogOrder(log, []) && Between(last, [], last)
  {
  }

  // ---- nothing left out ----

  /** No overflow among these events moved the resume position past an entry of the log. */
  predicate SkipFree(log: seq<Event>, last: Option<nat>, handled: seq<Event>) {
    handled == [] ||
    (var before := handled[..|handled| - 1];
     SkipFree(log, last, before)
     && (handled[|handled| - 1].body.Overflow? ==> Place(log, last, before) == Place(log, last, handled)))
  }

  /** No durable event was dispatched behind an overflow that did. */
  predicate NoneBehindSkip(log: seq<Event>, last: Option<nat>, handled: seq<Event>) {
    handled == [] ||
    (var before := handled[..|handled| - 1];
     NoneBehindSkip(log, last, before) && (handled[|handled| - 1].id.Some? ==> SkipFree(log, last, before)))
  }

  /** The watcher's place counts exactly the durable events it has dispatched, if and only if no overflow it
      handled skipped an entry. */
  lemma {:induction false} PlaceIsCountIff(log: seq<Event>, last: Option<nat>, handled: seq<Event>)
    requires IsLog(log) && Aligned(log, last, handled)
    ensures Place(log, last, []) + |Durable(handled)| <= Place(log, last, handled)
    ensures Place(log, last, []) + |Durable(handled)| == Place(log, last, handled) <==> SkipFree(log, last, handled)
  {
    if handled != [] {
      hide LastAfter, Passed, IsLog;
      var n := |handled| - 1;
      PlaceIsCountIff(log, last, handled[..n]);
      OneEvent(log, LastOf(last, handled[..n]), handled[n]);
    }
  }

  /** The dispatched durable events are the log's next ones without a gap, if and only if none of them came
      behind an overflow that skipped an entry. */
  lemma {:induction false} GaplessIff(log: seq<Event>, last: Option<nat>, handled: seq<Event>)
    requires IsLog(log) && Aligned(log, last, handled)
    ensures NextIn(log, Place(log, last, []), Durable(handled)) <==> NoneBehindSkip(log, last, handled)
  {
    if handled != [] {
      hide LastAfter, LastOf, Passed, NextIn, Place, SkipFree;
      var n := |handled| - 1;
      GaplessIff(log, last, handled[..n]);
      if handled[n].id.Some? {
        PlaceIsCountIff(log, last, handled[..n]);
        FitsAtPlace(log, last, handled[..n], handled[n]);
        OneMore(log, Place(log, last, []), Durable(handled[..n]), Place(log, last, handled[..n]), handled[n]);
      } else {
        assert Durable(handled) == Durable(handled[..n]);
      }
    }
  }

  lemma FitsAtPlace(log: seq<Event>, last: Option<nat>, before: seq<Event>, e: Event)
    requires FitsAt(log, LastOf(last, before), e) && e.id.Some?
    ensures Place(log, last, before) < |log| && e == log[Place(log, last, before)]
  {
  }

  /** A slice of the log grows by an entry exactly when that entry is the next one. */
  lemma OneMore(log: seq<Event>, c: nat, slice: seq<Event>, at: nat, e: Event)
    requires IsLog(log) && at < |log| && e == log[at] && c + |slice| <= at
    ensures NextIn(log, c, slice + [e]) <==> NextIn(log, c, slice) && at == c + |slice|
  {
    var n := c + |slice|;
    assert log[c..n + 1] == log[c..n] + [log[n]];
    assert (slice + [e])[..|slice|] == slice && (slice + [e])[|slice|] == e;
    if log[c..n + 1] == slice + [e] {
      assert log[c..n + 1][..|slice|] == log[c..n] && log[c..n + 1][|slice|] == log[n];
    }
  }

  lemma {:induction false} SkipFreeIsGapless(log: seq<Event>, last: Option<nat>, handled: seq<Event>)
    requires SkipFree(log, last, handled)
    ensures NoneBehindSkip(log, last, handled)
  {
    hide Place;
    if handled != [] {
      SkipFreeIsGapless(log, last, handled[..|handled| - 1]);
    }
  }

  /** Whatever an overflow skips is lost: at any point of any number of streams, an entry that it moved the
      position past is dispatched neither before nor after. */
  lemma SkippedIsLost(log: seq<Event>, last: Option<nat>, handled: seq<Event>, i: nat, n: nat)
    requires IsLog(log) && Aligned(log, last, handled) && i < |handled| && handled[i].body.Overflow?
    requires Place(log, last, handled[..i]) <= n < Place(log, last, handled[..i + 1])
    ensures log[n] !in Durable(handled)
  {
    var a, b := handled[..i + 1], handled[i + 1..];
    assert handled == a + b && a[..i] == handled[..i];
    AlignedConcat(log, last, a, b);
    DurableConcat(a, b);
    PassedSplits(log, OrZero(LastOf(last, a)));
    PassedSplits(log, OrZero(LastOf(last, a[..i])));
    AlignedOrder(log, last, a[..i]);
    AlignedOrder(log, LastOf(last, a), b);
    assert Durable(a) == Durable(a[..i]);
    assert OrZero(LastOf(last, a[..i])) < OrZero(log[n].id) <= OrZero(LastOf(last, a));
  }

  /** An overflow that names nothing beyond the position it meets skips nothing. */
  predicate NotAhead(last: Option<nat>, handled: seq<Event>) {
    handled == [] ||
    (var before, e := handled[..|handled| - 1], handled[|handled| - 1];
     NotAhead(last, before)
     && (e.body.Overflow? && e.body.lastSequence.Some? ==> e.body.lastSequence.value <= OrZero(LastOf(last, before))))
  }

  lemma {:induction false} NotAheadIsSkipFree(log: seq<Event>, last: Option<nat>, handled: seq<Event>)
    requires Aligned(log, last, handled) && NotAhead(last, handled)
    ensures SkipFree(log, last, handled)
  {
    hide Passed;
    if handled != [] {
      NotAheadIsSkipFree(log, last, handled[..|handled| - 1]);
    }
  }

  // ---- whole watches ----

  /** Where a watch goes after one stream, if it goes on. */
  predicate GoesOn(server: Server, streams: nat, last: Option<nat>, attempts: int, total: int, maxAttempts: int,
                   maxTotal: int) {
    Consume(last, server(streams, last)).end.Reconnect?
    && NextAttempts(server, streams, last, attempts) <= maxAttempts && total + 1 <= maxTotal
  }

  function NextAttempts(server: Server, streams: nat, last: Option<nat>, attempts: int): int {
    if server(streams, last).items == [] then attempts + 1 else 1
  }

  /** One step of a watch. */
  lemma WatchStep(server: Server, streams: nat, last: Option<nat>, attempts: int, total: int, maxAttempts: int,
                  maxTotal: int) returns (later: seq<Event>)
    ensures var o := Watch(server, streams, last, attempts, total, maxAttempts, maxTotal);
            var consumed := Consume(last, server(streams, last));
            && o.handled == consumed.handled + later
            && if GoesOn(server, streams, last, attempts, total, maxAttempts, maxTotal) then
                 var rest := Watch(server, streams + 1, consumed.last, NextAttempts(server, streams, last, attempts),
                                   total + 1, maxAttempts, maxTotal);
                 later == rest.handled && o.last == rest.last && o.end == rest.end && o.streams == rest.streams
               else later == [] && o.last == consumed.last && o.end == consumed.end && o.streams == streams + 1
  {
    hide Consume;
    var consumed := Consume(last, server(streams, last));
    assert consumed.handled + [] == consumed.handled;
    if GoesOn(server, streams, last, attempts, total, maxAttempts, maxTotal) {
      later := Watch(server, streams + 1, consumed.last, NextAttempts(server, streams, last, attempts), total + 1,
                     maxAttempts, maxTotal).handled;
    } else {
      later := [];
    }
  }

  // ---- when a stream and a watch end ----

  /** A stream is read up to the first event that ends it; and without one to where the server ends it, which
      a failure other than a lost connection makes the end of the watch. */
  lemma {:induction false} StreamReadsTo(last: Option<nat>, stream: Stream) returns (n: nat)
    ensures n <= |stream.items|
    ensures var consumed := Consume(last, stream);
            && consumed.handled == Events(stream.items[..n])
            && (if n > 0 && EndsWith(stream.items[n - 1], consumed.end) then
                  forall i | 0 <= i < n - 1 :: ReadsOn(stream.items[i])
                else
                  && n == |stream.items| && consumed.end == (if stream.fails then Raised else Reconnect)
                  && forall i | 0 <= i < n :: ReadsOn(stream.items[i]))
    decreases |stream.items|
  {
    hide LastAfter;
    n := 0;
    if stream.items != [] {
      var item, rest := stream.items[0], Stream(stream.items[1..], stream.fails);
      if Leaves(item).Some? {
        n := 1;
        assert stream.items[..1] == [item];
      } else {
        n := StreamReadsTo(LastAfter(last, item.event), rest);
        FrontEvents(stream.items, n);
        hide Events;
        assert forall i | 0 <= i < n :: stream.items[i + 1] == rest.items[i];
        n := n + 1;
      }
    }
  }

  lemma FrontEvents(items: seq<Item>, n: nat)
    requires n < |items|
    ensures Events(items[..n + 1]) == [items[0].event] + Events(items[1..][..n])
  {
    assert items[..n + 1] == [items[0]] + items[1..][..n];
  }

  /** The terminal event ends a stream, and nothing else does so as `Done`. */
  lemma StreamDoneIff(last: Option<nat>, stream: Stream)
    ensures var consumed := Consume(last, stream);
            && (consumed.end.Done? <==> exists e :: e in consumed.handled && e.body.Terminal?)
            && forall i | 0 <= i < |consumed.handled| && consumed.handled[i].body.Terminal? ::
                 i == |consumed.handled| - 1 && consumed.end == Done(consumed.handled[i].body.status)
  {
    hide Consume;
    var n := StreamReadsTo(last, stream);
    var consumed := Consume(last, stream);
    if consumed.end.Done? {
      assert consumed.handled[n - 1] in consumed.handled;
    }
  }

  /** A watch ends with a status exactly when it has handled a terminal event; that event is the last one it
      handled, and the status is the one the event names. */
  lemma {:induction false} DoneIff(server: Server, streams: nat, last: Option<nat>, attempts: int, total: int,
                                   maxAttempts: int, maxTotal: int)
    ensures var o := Watch(server, streams, last, attempts, total, maxAttempts, maxTotal);
            && (o.end.Done? <==> exists e :: e in o.handled && e.body.Terminal?)
            && forall i | 0 <= i < |o.handled| && o.handled[i].body.Terminal? ::
                 i == |o.handled| - 1 && o.end == Done(o.handled[i].body.status)
    decreases maxTotal - total
  {
    hide Consume, Watch, NextAttempts;
    var consumed := Consume(last, server(streams, last));
    var later := WatchStep(server, streams, last, attempts, total, maxAttempts, maxTotal);
    StreamDoneIff(last, server(streams, last));
    if GoesOn(server, streams, last, attempts, total, maxAttempts, maxTotal) {
      DoneIff(server, streams + 1, consumed.last, NextAttempts(server, streams, last, attempts), total + 1,
              maxAttempts, maxTotal);
      TerminalBehind(consumed.handled, later);
    } else {
      assert consumed.handled + [] == consumed.handled;
    }
  }

  lemma TerminalBehind(before: seq<Event>, later: seq<Event>)
    requires forall e | e in before :: !e.body.Terminal?
    ensures forall i | 0 <= i < |before + later| && (before + later)[i].body.Terminal? ::
              i >= |before| && (before + later)[i] == later[i - |before|]
    ensures (exists e :: e in before + later && e.body.Terminal?) <==> exists e :: e in later && e.body.Terminal?
  {
    if e :| e in later && e.body.Terminal? {
      assert e in before + later;
    }
  }

  /** The positions at which a watch opened its streams. */
  ghost predicate Opens(server: Server, first: Option<nat>, lasts: seq<Option<nat>>) {
    && lasts != [] && lasts[0] == first
    && forall i | 0 < i < |lasts| :: lasts[i] == Consume(lasts[i - 1], server(i - 1, lasts[i - 1])).last
  }

  /** How many streams in a row, up to the k-th, yielded nothing. */
  function Barren(server: Server, lasts: seq<Option<nat>>, k: nat): nat
    requires k < |lasts|
  {
    if server(k, lasts[k]).items != [] then 0 else 1 + if k == 0 then 0 else Barren(server, lasts, k - 1)
  }

  /** After the k-th stream the watcher gives up: it would reconnect for the `maxTotal + 1`st time, or more than
      `maxAttempts` times since an event last arrived. */
  predicate GivesUp(server: Server, lasts: seq<Option<nat>>, k: nat, maxAttempts: int, maxTotal: int)
    requires k < |lasts|
  {
    || k + 1 > maxTotal
    || Barren(server, lasts, k) + (if Barren(server, lasts, k) == k + 1 then 0 else 1) > maxAttempts
  }

  /** How a watch got to where it ended: each stream but the last ended in a reconnect that was within the
      limits; and the last one ended otherwise, or in a reconnect that was not. */
  lemma WatchHistory(server: Server, maxAttempts: int, maxTotal: int) returns (lasts: seq<Option<nat>>)
    ensures var o := Watch(server, 0, None, 0, 0, maxAttempts, maxTotal);
            && Opens(server, None, lasts) && |lasts| == o.streams
            && (forall k | 0 <= k < |lasts| - 1 ::
                  Consume(lasts[k], server(k, lasts[k])).end.Reconnect?
                  && !GivesUp(server, lasts, k, maxAttempts, maxTotal))
            && var n := |lasts| - 1;
               && o.end == Consume(lasts[n], server(n, lasts[n])).end
               && (o.end.Reconnect? ==> GivesUp(server, lasts, n, maxAttempts, maxTotal))
  {
    lasts := HistoryFrom(server, [None], 0, maxAttempts, maxTotal);
  }

  /** The reconnect counter before the last of these streams. */
  function Tried(server: Server, lasts: seq<Option<nat>>): nat
    requires lasts != []
  {
    var k := |lasts| - 1;
    if k == 0 then 0
    else Barren(server, lasts, k - 1) + if Barren(server, lasts, k - 1) == k then 0 else 1
  }

  lemma {:induction false} HistoryFrom(server: Server, so: seq<Option<nat>>, attempts: nat, maxAttempts: int,
                                       maxTotal: int) returns (lasts: seq<Option<nat>>)
    requires Opens(server, None, so) && attempts == Tried(server, so)
    requires forall k | 0 <= k < |so| - 1 ::
               Consume(so[k], server(k, so[k])).end.Reconnect? && !GivesUp(server, so, k, maxAttempts, maxTotal)
    ensures var m := |so| - 1;
            var o := Watch(server, m, so[m], attempts, m, maxAttempts, maxTotal);
            && Opens(server, None, lasts) && |lasts| == o.streams
            && (forall k | 0 <= k < |lasts| - 1 ::
                  Consume(lasts[k], server(k, lasts[k])).end.Reconnect?
                  && !GivesUp(server, lasts, k, maxAttempts, maxTotal))
            && var n := |lasts| - 1;
               && o.end == Consume(lasts[n], server(n, lasts[n])).end
               && (o.end.Reconnect? ==> GivesUp(server, lasts, n, maxAttempts, maxTotal))
    decreases maxTotal - |so|
  {
    hide Consume, Watch;
    var m := |so| - 1;
    var later := WatchStep(server, m, so[m], attempts, m, maxAttempts, maxTotal);
    if GoesOn(server, m, so[m], attempts, m, maxAttempts, maxTotal) {
      var more := so + [Consume(so[m], server(m, so[m])).last];
      forall k | 0 <= k < |so| ensures Barren(server, more, k) == Barren(server, so, k) {
        BarrenSame(server, so, more, k);
      }
      lasts := HistoryFrom(server, more, NextAttempts(server, m, so[m], attempts), maxAttempts, maxTotal);
    } else {
      lasts := so;
    }
  }

  lemma {:induction false} BarrenSame(server: Server, a: seq<Option<nat>>, b: seq<Option<nat>>, k: nat)
    requires k < |a| <= |b| && b[..|a|] == a
    ensures Barren(server, a, k) == Barren(server, b, k) <= k + 1
  {
    assert a[k] == b[k];
    if k > 0 {
      BarrenSame(server, a, b, k - 1);
    }
  }

  // ---- what a watch dispatches ----

  /** Over every stream a watch opens, each event fits at the position the events before it lead to. */
  lemma {:induction false} WatchAligned(log: seq<Event>, server: Server, streams: nat, last: Option<nat>,
                                        attempts: int, total: int, maxAttempts: int, maxTotal: int)
    requires IsLog(log) && Serves(log, server)
    ensures var o := Watch(server, streams, last, attempts, total, maxAttempts, maxTotal);
            Aligned(log, last, o.handled) && o.last == LastOf(last, o.handled)
    decreases maxTotal - total
  {
    hide Consume, Watch, Aligned, LastOf, ServesStream, IsLog;
    var later := WatchStep(server, streams, last, attempts, total, maxAttempts, maxTotal);
    var consumed := Consume(last, server(streams, last));
    assert ServesStream(log, last, server(streams, last).items);
    StreamAdvances(log, last, server(streams, last));
    AlignedConcat(log, last, consumed.handled, later);
    LastOfConcat(last, consumed.handled, later);
    if GoesOn(server, streams, last, attempts, total, maxAttempts, maxTotal) {
      WatchAligned(log, server, streams + 1, consumed.last, NextAttempts(server, streams, last, attempts), total + 1,
                   maxAttempts, maxTotal);
    } else {
      NothingHandled(log, consumed.last);
    }
  }

  lemma NothingHandled(log: seq<Event>, last: Option<nat>)
    ensures Aligned(log, last, []) && LastOf(last, []) == last
  {
  }

  /** Dispatched at most once and in log order, whatever the overflow frames say. */
  lemma WatchInOrder(log: seq<Event>, server: Server, streams: nat, last: Option<nat>, attempts: int, total: int,
                     maxAttempts: int, maxTotal: int)
    requires IsLog(log) && Serves(log, server)
    ensures var o := Watch(server, streams, last, attempts, total, maxAttempts, maxTotal);
            InLogOrder(log, Durable(o.handled)) && Between(last, Durable(o.handled), o.last)
  {
    hide Watch, Aligned, LastOf, InLogOrder, Between, Durable, Serves, IsLog;
    WatchAligned(log, server, streams, last, attempts, total, maxAttempts, maxTotal);
    AlignedOrder(log, last, Watch(server, streams, last, attempts, total, maxAttempts, maxTotal).handled);
  }

  /** When no overflow it handled named a sequence beyond what had been streamed, nothing is left out. */
  lemma WatchGapless(log: seq<Event>, server: Server, streams: nat, last: Option<nat>, attempts: int, total: int,
                     maxAttempts: int, maxTotal: int)
    requires IsLog(log) && Serves(log, server)
    requires NotAhead(last, Watch(server, streams, last, attempts, total, maxAttempts, maxTotal).handled)
    ensures NextIn(log, Passed(log, OrZero(last)),
                   Durable(Watch(server, streams, last, attempts, total, maxAttempts, maxTotal).handled))
  {
    hide Watch, Aligned, NextIn, Durable, NotAhead, SkipFree, NoneBehindSkip, Serves, IsLog;
    var handled := Watch(server, streams, last, attempts, total, maxAttempts, maxTotal).handled;
    WatchAligned(log, server, streams, last, attempts, total, maxAttempts, maxTotal);
    NotAheadIsSkipFree(log, last, handled);
    SkipFreeIsGapless(log, last, handled);
    GaplessIff(log, last, handled);
  }

  lemma {:induction false} StreamEndsAtTerminal(last: Option<nat>, stream: Stream)
    requires forall i | 0 <= i < |stream.items| ::
               stream.items[i].event.body.Terminal? ==> stream.items[i].event.id.Some?
    ensures var consumed := Consume(last, stream);
            consumed.end.Done? ==> EndsIn(consumed.handled, consumed.end.status)
    decreases |stream.items|
  {
    if stream.items != [] && Leaves(stream.items[0]).None? {
      StreamEndsAtTerminal(LastAfter(last, stream.items[0].event), Stream(stream.items[1..], stream.fails));
    }
  }

  /** The last event dispatched is a durable terminal one. */
  predicate EndsIn(handled: seq<Event>, status: string) {
    handled != [] && handled[|handled| - 1].body == Terminal(status) && handled[|handled| - 1].id.Some?
  }

  lemma {:induction false} WatchEnds(log: seq<Event>, server: Server, streams: nat, last: Option<nat>, attempts: int,
                                     total: int, maxAttempts: int, maxTotal: int)
    requires Serves(log, server)
    ensures var o := Watch(server, streams, last, attempts, total, maxAttempts, maxTotal);
            && (o.end.Done? ==> EndsIn(o.handled, o.end.status))
            && o.streams <= streams + 1 + if total <= maxTotal then maxTotal - total else 0
    decreases maxTotal - total
  {
    assert ServesStream(log, last, server(streams, last).items);
    StreamEndsAtTerminal(last, server(streams, last));
    hide Consume, Watch, NextAttempts, EndsIn, Serves, ServesStream;
    var later := WatchStep(server, streams, last, attempts, total, maxAttempts, maxTotal);
    if GoesOn(server, streams, last, attempts, total, maxAttempts, maxTotal) {
      var consumed := Consume(last, server(streams, last));
      var attempts' := NextAttempts(server, streams, last, attempts);
      WatchEnds(log, server, streams + 1, consumed.last, attempts', total + 1, maxAttempts, maxTotal);
      var rest := Watch(server, streams + 1, consumed.last, attempts', total + 1, maxAttempts, maxTotal);
      if rest.end.Done? {
        EndsBehind(consumed.handled, later, rest.end.status);
      }
    } else {
      var consumed := Consume(last, server(streams, last));
      assert consumed.handled + [] == consumed.handled;
    }
  }

  lemma EndsBehind(before: seq<Event>, later: seq<Event>, status: string)
    requires EndsIn(later, status)
    ensures EndsIn(before + later, status)
  {
    var all := before + later;
    assert all[|all| - 1] == later[|later| - 1];
  }

  /** Replay-safe watching, for every server, every pattern of disconnects and every handler failure.
      Each durable event is dispatched at most once and in log order; at most `maxTotal + 1` streams are
      opened. The events dispatched are the log's first ones if and only if none came behind an overflow that
      skipped an entry, which for a watch that finished means that no overflow did; and then they run up to
      and including the terminal event. */
  lemma ReplaySafe(log: seq<Event>, server: Server, maxAttempts: int, maxTotal: nat)
    requires IsLog(log) && Serves(log, server)
    ensures var o := Watch(server, 0, None, 0, 0, maxAttempts, maxTotal);
            && InLogOrder(log, Durable(o.handled))
            && o.streams <= maxTotal + 1
            && (NextIn(log, 0, Durable(o.handled)) <==> NoneBehindSkip(log, None, o.handled))
            && (Passed(log, OrZero(o.last)) == |Durable(o.handled)| <==> SkipFree(log, None, o.handled))
            && (o.end.Done? ==> EndsIn(Durable(o.handled), o.end.status)
                                && (NextIn(log, 0, Durable(o.handled)) <==> SkipFree(log, None, o.handled)))
  {
    hide Watch, Durable, InLogOrder, EndsIn, NextIn, Serves, Aligned, SkipFree, NoneBehindSkip, IsLog;
    var o := Watch(server, 0, None, 0, 0, maxAttempts, maxTotal);
    WatchInOrder(log, server, 0, None, 0, 0, maxAttempts, maxTotal);
    WatchAligned(log, server, 0, None, 0, 0, maxAttempts, maxTotal);
    WatchEnds(log, server, 0, None, 0, 0, maxAttempts, maxTotal);
    AtTheStart(log);
    PlaceIsCountIff(log, None, o.handled);
    GaplessIff(log, None, o.handled);
    if o.end.Done? {
      EndsDurably(o.handled, o.end.status);
      EndsOnSkip(log, None, o.handled, o.end.status);
    }
  }

  lemma AtTheStart(log: seq<Event>)
    requires IsLog(log)
    ensures Place(log, None, []) == 0
  {
    PassedIs(log, 0, 0);
  }

  lemma EndsDurably(handled: seq<Event>, status: string)
    requires EndsIn(handled, status)
    ensures EndsIn(Durable(handled), status)
  {
  }

  /** With a durable event at the end, something comes behind every skip. */
  lemma EndsOnSkip(log: seq<Event>, last: Option<nat>, handled: seq<Event>, status: string)
    requires EndsIn(handled, status)
    ensures NoneBehindSkip(log, last, handled) <==> SkipFree(log, last, handled)
  {
    hide Place;
    if SkipFree(log, last, handled) {
      SkipFreeIsGapless(log, last, handled);
    }
  }

  /** An overflow frame that runs ahead, at any point of any stream a watch opens, does lose events: the
      entries it moves the resume position past are never dispatched. */
  lemma OverflowAheadSkips(log: seq<Event>, server: Server, maxAttempts: int, maxTotal: nat, i: nat, n: nat)
    requires IsLog(log) && Serves(log, server)
    requires i < |Watch(server, 0, None, 0, 0, maxAttempts, maxTotal).handled|
    requires Watch(server, 0, None, 0, 0, maxAttempts, maxTotal).handled[i].body.Overflow?
    requires var handled := Watch(server, 0, None, 0, 0, maxAttempts, maxTotal).handled;
             Place(log, None, handled[..i]) <= n < Place(log, None, handled[..i + 1])
    ensures log[n] !in Durable(Watch(server, 0, None, 0, 0, maxAttempts, maxTotal).handled)
  {
    hide Watch, Durable, Aligned, Serves, IsLog;
    WatchAligned(log, server, 0, None, 0, 0, maxAttempts, maxTotal);
    SkippedIsLost(log, None, Watch(server, 0, None, 0, 0, maxAttempts, maxTotal).handled, i, n);
  }

  /** Such a server: one event in the log, and a first stream that is one overflow naming it. */
  lemma OneOverflowLoses()
    ensures var e := Event(Some(1), Plain);
            var overflow := Event(None, Overflow(Some(1)));
            var server: Server := (k, _) => Stream(if k == 0 then [Item(overflow, Nothing)] else [], false);
            && IsLog([e]) && Serves([e], server)
            && var o := Watch(server, 0, None, 0, 0, 1, 1);
               o.handled == [overflow] && !SkipFree([e], None, o.handled) && e !in Durable(o.handled)
  {
    var e, overflow := Event(Some(1), Plain), Event(None, Overflow(Some(1)));
    var server: Server := (k, _) => Stream(if k == 0 then [Item(overflow, Nothing)] else [], false);
    forall k, last ensures ServesStream([e], last, server(k, last).items) {
      DurableOne(overflow);
      assert Events(server(k, last).items) == if k == 0 then [overflow] else [];
    }
    assert Consume(None, server(0, None)) == Consumed(Some(1), [overflow], Reconnect);
    assert Consume(Some(1), server(1, Some(1))) == Consumed(Some(1), [], Reconnect);
    var o := Watch(server, 0, None, 0, 0, 1, 1);
    assert o.handled == [overflow];
    assert [overflow][..0] == [];
    DurableOne(overflow);
    PassedIs([e], 0, 0);
    PassedIs([e], 1, 1);
  }
}

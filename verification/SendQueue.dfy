/**
 The send queue of a response (task-3a/framework/dep/Simple-Web-Server/server_http.hpp).

 `send` may be called from any thread and the completion handler of a write runs on any
 thread. A call of `send` first takes the stream buffer, without the mutex, and then
 enqueues it inside `send_queue_mutex`; other calls may get in between. A run is a
 sequence of such takes and critical sections. Callbacks are called after the mutex is
 released, in steps of their own. `async_write` is an operation that starts a write and
 later completes it, once, with success or with an error.
 */
module SendQueue {
  import opened Bytes

  type Data = bytes
  type Callback = nat

  /** An element of `send_queue`: the content to write, and the callback unless null. */
  datatype Entry = Entry(content: Data, callback: Option<Callback>)

  /** A call of a callback, with or without an error. */
  datatype Invocation = Invocation(callback: Callback, ok: bool)

  /** `current` is the stream buffer being filled; `started` are all writes ever started
      and `inFlight` those that have not completed. */
  datatype State = State(current: Data, queue: seq<Entry>, started: seq<Data>, inFlight: seq<Data>)

  const INITIAL := State([], [], [], [])

  datatype Event =
    | Fill(data: Data)                  // the user streams into the response
    | Take(callback: Option<Callback>)  // a call of `send` takes what was streamed
    | Enqueue(entry: Entry)             // and enqueues it
    | Complete(write: nat, ok: bool)    // one of the writes in flight completes

  /** At most one write is in flight: one exactly when the queue is not empty, and it
      is writing the front. */
  ghost predicate Inv(s: State) {
    s.inFlight == if s.queue == [] then [] else [s.queue[0].content]
  }

  predicate Enabled(s: State, e: Event) {
    e.Complete? ==> e.write < |s.inFlight|
  }

  function CallOf(entry: Entry, ok: bool): seq<Invocation> {
    if entry.callback.Some? then [Invocation(entry.callback.value, ok)] else []
  }

  function Calls(entries: seq<Entry>, ok: bool): seq<Invocation> {
    if entries == [] then [] else CallOf(entries[0], ok) + Calls(entries[1..], ok)
  }

  /** `send_from_queue`. */
  function StartFront(s: State): State
    requires s.queue != []
  {
    var content := s.queue[0].content;
    s.(started := s.started + [content], inFlight := s.inFlight + [content])
  }

  /** One step: the next state and the callbacks selected for a call. */
  function Apply(s: State, e: Event): (State, seq<Invocation>)
    requires Enabled(s, e) && (e.Complete? ==> s.queue != [])
  {
    match e
    case Fill(data) => (s.(current := s.current + data), [])
    case Take(_) => (s.(current := []), [])
    case Enqueue(entry) =>
      var t := s.(queue := s.queue + [entry]);
      (if |t.queue| == 1 then StartFront(t) else t, [])
    case Complete(write, ok) =>
      var t := s.(inFlight := s.inFlight[..write] + s.inFlight[write + 1..]);
      if ok then
        var u := t.(queue := t.queue[1..]);
        (if |u.queue| > 0 then StartFront(u) else u, CallOf(t.queue[0], true))
      else
        (t.(queue := []), Calls(t.queue, false))
  }

  lemma StepKeepsInv(s: State, e: Event)
    requires Inv(s) && Enabled(s, e)
    ensures e.Complete? ==> s.queue != []
    ensures Inv(Apply(s, e).0)
  {
  }

  // ----- what a step tells the callbacks

  function Callbacks(entries: seq<Entry>): seq<Callback> {
    if entries == [] then []
    else (if entries[0].callback.Some? then [entries[0].callback.value] else []) + Callbacks(entries[1..])
  }

  function CallbacksOf(calls: seq<Invocation>): seq<Callback> {
    if calls == [] then [] else [calls[0].callback] + CallbacksOf(calls[1..])
  }

  lemma {:induction false} CallbacksOfAppend(x: seq<Invocation>, y: seq<Invocation>)
    ensures CallbacksOf(x + y) == CallbacksOf(x) + CallbacksOf(y)
  {
    if x == [] {
      assert x + y == y;
    } else {
      assert (x + y)[1..] == x[1..] + y;
      CallbacksOfAppend(x[1..], y);
    }
  }

  lemma {:induction false} CallsTell(entries: seq<Entry>, ok: bool)
    ensures CallbacksOf(Calls(entries, ok)) == Callbacks(entries)
    ensures forall c :: c in Calls(entries, ok) ==> c.ok == ok
  {
    if entries != [] {
      CallsTell(entries[1..], ok);
      CallbacksOfAppend(CallOf(entries[0], ok), Calls(entries[1..], ok));
    }
  }

  lemma CallsNext(entries: seq<Entry>, i: nat, ok: bool)
    requires i < |entries|
    ensures Calls(entries[i..], ok) == CallOf(entries[i], ok) + Calls(entries[i + 1..], ok)
  {
    assert entries[i..][1..] == entries[i + 1..];
  }

  /** A success is told to the front and removes it, a failure to all and removes all. */
  lemma CompletionTells(s: State, write: nat, ok: bool)
    requires Inv(s) && write < |s.inFlight|
    ensures s.queue != []
    ensures var (next, calls) := Apply(s, Complete(write, ok));
      && next.queue == (if ok then s.queue[1..] else [])
      && CallbacksOf(calls) == Callbacks(if ok then s.queue[..1] else s.queue)
      && forall c :: c in calls ==> c.ok == ok
  {
    CallsTell(s.queue, false);
    CallsTell(s.queue[..1], true);
    assert Calls(s.queue[..1], true) == CallOf(s.queue[0], true) + Calls(s.queue[..1][1..], true);
  }

  /** Only a completion selects callbacks. */
  lemma OnlyCompletionsTell(s: State, e: Event)
    requires !e.Complete?
    ensures Apply(s, e).1 == []
  {
  }

  // ----- the methods

  class Socket {
    var started: seq<Data>
    var inFlight: seq<Data>

    constructor ()
      ensures started == [] && inFlight == []
    {
      started, inFlight := [], [];
    }

    method AsyncWrite(content: Data)
      modifies this
      ensures started == old(started) + [content] && inFlight == old(inFlight) + [content]
    {
      started, inFlight := started + [content], inFlight + [content];
    }
  }

  class Response {
    const socket: Socket
    var streambuf: Data
    var sendQueue: seq<Entry>

    ghost function Abs(): State
      reads this, socket
    {
      State(streambuf, sendQueue, socket.started, socket.inFlight)
    }

    constructor ()
      ensures fresh(socket) && Abs() == INITIAL
    {
      socket := new Socket();
      streambuf := [];
      sendQueue := [];
    }

    method Write(data: Data)
      modifies this
      ensures Abs() == Apply(old(Abs()), Fill(data)).0
    {
      streambuf := streambuf + data;
    }

    method SendFromQueue()
      requires sendQueue != []
      modifies socket
      ensures Abs() == StartFront(old(Abs()))
    {
      socket.AsyncWrite(sendQueue[0].content);
    }

    /** The part of `send` before the mutex. */
    method Take(callback: Option<Callback>) returns (entry: Entry)
      modifies this
      ensures entry == Entry(old(streambuf), callback)
      ensures Abs() == Apply(old(Abs()), Event.Take(callback)).0
    {
      entry := Entry(streambuf, callback);
      streambuf := [];
    }

    /** The part inside it. */
    method Enqueue(entry: Entry)
      requires Inv(Abs())
      modifies this, socket
      ensures Abs() == Apply(old(Abs()), Event.Enqueue(entry)).0
      ensures Inv(Abs())
    {
      StepKeepsInv(Abs(), Event.Enqueue(entry));
      sendQueue := sendQueue + [entry];
      if |sendQueue| == 1 {
        SendFromQueue();
      }
    }

    /** Both, when no other call gets in between. */
    method Send(callback: Option<Callback>)
      requires Inv(Abs())
      modifies this, socket
      ensures var taken := Apply(old(Abs()), Event.Take(callback)).0;
        Abs() == Apply(taken, Event.Enqueue(Entry(old(streambuf), callback))).0
      ensures Inv(Abs())
    {
      var entry := Take(callback);
      Enqueue(entry);
    }

    /** All callbacks of the queue, for a call with the error. */
    static method SelectAll(queue: seq<Entry>) returns (calls: seq<Invocation>)
      ensures calls == Calls(queue, false)
      ensures CallbacksOf(calls) == Callbacks(queue) && forall c :: c in calls ==> c.ok == false
    {
      calls := [];
      for i := 0 to |queue|
        invariant calls + Calls(queue[i..], false) == Calls(queue, false)
      {
        CallsNext(queue, i, false);
        Regroup(calls, CallOf(queue[i], false), Calls(queue[i + 1..], false));
        if queue[i].callback.Some? {
          calls := calls + [Invocation(queue[i].callback.value, false)];
        }
      }
      assert Calls(queue[|queue|..], false) == [];
      CallsTell(queue, false);
    }

    /** The completion handler of `send_from_queue`; it returns the calls that are made
        after the mutex is released. */
    method OnWriteComplete(write: nat, ok: bool) returns (calls: seq<Invocation>)
      requires Inv(Abs()) && write < |socket.inFlight|
      modifies this, socket
      ensures (Abs(), calls) == Apply(old(Abs()), Complete(write, ok))
      ensures Inv(Abs())
      ensures sendQueue == if ok then old(sendQueue)[1..] else []
      ensures CallbacksOf(calls) == Callbacks(if ok then old(sendQueue)[..1] else old(sendQueue))
      ensures forall c :: c in calls ==> c.ok == ok
    {
      StepKeepsInv(Abs(), Complete(write, ok));
      CompletionTells(Abs(), write, ok);
      socket.inFlight := socket.inFlight[..write] + socket.inFlight[write + 1..];
      if ok {
        var callback := sendQueue[0].callback;
        sendQueue := sendQueue[1..];
        if |sendQueue| > 0 {
          SendFromQueue();
        }
        calls := if callback.Some? then [Invocation(callback.value, true)] else [];
      } else {
        calls := SelectAll(sendQueue);
        sendQueue := [];
      }
    }
  }

  // ----- whole runs

  datatype Outcome = Written | WriteFailed | Abandoned  // abandoned: never started

  datatype Resolved = Resolved(entry: Entry, outcome: Outcome)

  /** A state together with everything that led to it. Calls of `send` are numbered by the
      order in which they take. */
  datatype Log = Log(
    state: State,
    filled: Data,                     // all data ever streamed in
    taken: seq<Entry>,                // all entries ever taken
    order: seq<nat>,                  // the calls that have enqueued theirs, in that order
    sent: seq<Entry>,                 // all entries ever enqueued
    resolved: seq<Resolved>,          // entries that have left the queue
    selected: seq<Invocation>,        // callbacks picked inside the mutex
    results: seq<bool>,               // for each, the result of the write that had completed then
    pending: multiset<Invocation>,    // of those, the ones not called yet
    called: multiset<Invocation>)     // and the ones called

  const START := Log(INITIAL, [], [], [], [], [], [], [], multiset{}, multiset{})

  function Abandon(entries: seq<Entry>): seq<Resolved> {
    if entries == [] then [] else [Resolved(entries[0], Abandoned)] + Abandon(entries[1..])
  }

  /** What happened to the entries that leave the queue in a step. */
  function Leaving(s: State, e: Event): seq<Resolved>
    requires e.Complete? ==> s.queue != []
  {
    if !e.Complete? then []
    else if e.ok then [Resolved(s.queue[0], Written)]
    else [Resolved(s.queue[0], WriteFailed)] + Abandon(s.queue[1..])
  }

  datatype Step =
    | Happens(event: Event)           // all but Enqueue
    | Enqueues(call: nat)             // a call of `send` enqueues what it has taken
    | Invokes(invocation: Invocation) // a selected callback is called, outside the mutex

  predicate Possible(log: Log, step: Step) {
    match step
    case Happens(e) => !e.Enqueue? && Enabled(log.state, e)
    case Enqueues(call) => call < |log.taken| && call !in log.order
    case Invokes(i) => i in log.pending
  }

  function EventOf(log: Log, step: Step): Event
    requires Possible(log, step) && !step.Invokes?
  {
    if step.Happens? then step.event else Enqueue(log.taken[step.call])
  }

  function Advance(log: Log, step: Step): Log
    requires Possible(log, step) && !step.Invokes? && Inv(log.state)
  {
    var e := EventOf(log, step);
    StepKeepsInv(log.state, e);
    var (next, calls) := Apply(log.state, e);
    Log(next,
        log.filled + if e.Fill? then e.data else [],
        log.taken + if e.Take? then [Entry(log.state.current, e.callback)] else [],
        log.order + if step.Enqueues? then [step.call] else [],
        log.sent + if e.Enqueue? then [e.entry] else [],
        log.resolved + Leaving(log.state, e),
        log.selected + calls,
        log.results + seq(|calls|, _ => e.Complete? && e.ok),
        log.pending + multiset(calls),
        log.called)
  }

  function Called(log: Log, i: Invocation): Log {
    log.(pending := log.pending - multiset{i}, called := log.called + multiset{i})
  }

  /** The log of a sequence of steps; None if one of them was not possible. */
  function Replay(steps: seq<Step>): (result: Option<Log>)
    ensures result.Some? ==> Inv(result.value.state)
  {
    if steps == [] then Some(START)
    else
      match Replay(steps[..|steps| - 1])
      case None => None
      case Some(log) =>
        var step := steps[|steps| - 1];
        if !Possible(log, step) then None
        else if step.Invokes? then Some(Called(log, step.invocation))
        else
          StepKeepsInv(log.state, EventOf(log, step));
          Some(Advance(log, step))
  }

  function Entries(resolved: seq<Resolved>): seq<Entry> {
    if resolved == [] then [] else [resolved[0].entry] + Entries(resolved[1..])
  }

  function Contents(entries: seq<Entry>): Data {
    if entries == [] then [] else entries[0].content + Contents(entries[1..])
  }

  /** The contents that were handed to `async_write`. */
  function Started(resolved: seq<Resolved>): seq<Data> {
    if resolved == [] then []
    else (if resolved[0].outcome.Abandoned? then [] else [resolved[0].entry.content]) + Started(resolved[1..])
  }

  function Selected(resolved: seq<Resolved>): seq<Invocation> {
    if resolved == [] then []
    else CallOf(resolved[0].entry, resolved[0].outcome.Written?) + Selected(resolved[1..])
  }

  lemma {:induction false} EntriesAppend(x: seq<Resolved>, y: seq<Resolved>)
    ensures Entries(x + y) == Entries(x) + Entries(y)
  {
    if x == [] {
      assert x + y == y;
    } else {
      assert (x + y)[1..] == x[1..] + y;
      EntriesAppend(x[1..], y);
    }
  }

  lemma {:induction false} StartedAppend(x: seq<Resolved>, y: seq<Resolved>)
    ensures Started(x + y) == Started(x) + Started(y)
  {
    if x == [] {
      assert x + y == y;
    } else {
      assert (x + y)[1..] == x[1..] + y;
      StartedAppend(x[1..], y);
    }
  }

  lemma {:induction false} SelectedAppend(x: seq<Resolved>, y: seq<Resolved>)
    ensures Selected(x + y) == Selected(x) + Selected(y)
  {
    if x == [] {
      assert x + y == y;
    } else {
      assert (x + y)[1..] == x[1..] + y;
      SelectedAppend(x[1..], y);
    }
  }

  lemma {:induction false} ContentsAppend(x: seq<Entry>, y: seq<Entry>)
    ensures Contents(x + y) == Contents(x) + Contents(y)
  {
    if x == [] {
      assert x + y == y;
    } else {
      assert (x + y)[1..] == x[1..] + y;
      ContentsAppend(x[1..], y);
    }
  }

  lemma {:induction false} AbandonedQueue(entries: seq<Entry>)
    ensures Entries(Abandon(entries)) == entries
    ensures Started(Abandon(entries)) == []
    ensures Selected(Abandon(entries)) == Calls(entries, false)
  {
    if entries != [] {
      var x := Abandon(entries);
      assert x[0] == Resolved(entries[0], Abandoned) && x[1..] == Abandon(entries[1..]);
      AbandonedQueue(entries[1..]);
      assert entries == [entries[0]] + entries[1..];
    }
  }

  // ----- the laws of a run

  /** Entries leave the queue in the order of enqueuing, and none is lost or duplicated. */
  ghost predicate QueueLaw(log: Log) {
    log.sent == Entries(log.resolved) + log.state.queue
  }

  /** A callback is selected when its entry leaves the queue, in the same order. */
  ghost predicate SelectLaw(log: Log) {
    log.selected == Selected(log.resolved)
  }

  /** Only completions select callbacks, and every callback is told their result. */
  ghost predicate ResultLaw(log: Log) {
    Agree(log.selected, log.results)
  }

  ghost predicate Agree(calls: seq<Invocation>, results: seq<bool>) {
    |results| == |calls| && forall i :: 0 <= i < |calls| ==> calls[i].ok == results[i]
  }

  lemma AgreeMore(calls: seq<Invocation>, results: seq<bool>, more: seq<Invocation>, ok: bool)
    requires Agree(calls, results) && forall c :: c in more ==> c.ok == ok
    ensures Agree(calls + more, results + seq(|more|, _ => ok))
  {
    forall i | 0 <= i < |more|
      ensures more[i].ok == ok
    {
      assert more[i] in more;
    }
  }

  /** Writes are started in the same order; only a failure abandons entries unstarted. */
  ghost predicate StartLaw(log: Log) {
    log.state.started == Started(log.resolved) + log.state.inFlight
  }

  /** Every selected callback is called at most once, and is otherwise still to be called. */
  ghost predicate CallLaw(log: Log) {
    log.pending + log.called == multiset(log.selected)
  }

  /** Taking loses no data. */
  ghost predicate TakeLaw(log: Log) {
    log.filled == Contents(log.taken) + log.state.current
  }

  ghost predicate Distinct(order: seq<nat>, n: nat) {
    (forall i :: 0 <= i < |order| ==> order[i] < n) && (forall i, j :: 0 <= i < j < |order| ==> order[i] != order[j])
  }

  /** The entries that some calls have taken. */
  function Picked(taken: seq<Entry>, order: seq<nat>): (entries: seq<Entry>)
    requires forall i :: 0 <= i < |order| ==> order[i] < |taken|
    ensures |entries| == |order|
  {
    seq(|order|, i requires 0 <= i < |order| => taken[order[i]])
  }

  /** Each call enqueues what it has taken, once. */
  ghost predicate OrderLaw(log: Log) {
    Distinct(log.order, |log.taken|) && log.sent == Picked(log.taken, log.order)
  }

  ghost predicate Good(log: Log) {
    && Inv(log.state) && QueueLaw(log) && SelectLaw(log) && ResultLaw(log)
    && StartLaw(log) && CallLaw(log) && TakeLaw(log) && OrderLaw(log)
  }

  /** The writes that a step starts. */
  function NewWrites(s: State, e: Event): (writes: seq<Data>)
    requires Enabled(s, e) && (e.Complete? ==> s.queue != [])
    ensures Apply(s, e).0.started == s.started + writes
  {
    Apply(s, e).0.started[|s.started|..]
  }

  /** What a step removes from the queue, selects and starts. */
  ghost predicate LeavingLaws(s: State, e: Event)
    requires Enabled(s, e) && (e.Complete? ==> s.queue != [])
  {
    var (next, calls) := Apply(s, e);
    && Entries(Leaving(s, e)) + next.queue == s.queue + (if e.Enqueue? then [e.entry] else [])
    && Selected(Leaving(s, e)) == calls
    && s.inFlight + NewWrites(s, e) == Started(Leaving(s, e)) + next.inFlight
  }

  lemma SuccessLaws(s: State, e: Event)
    requires Inv(s) && Enabled(s, e) && e.Complete? && e.ok && s.queue != []
    ensures LeavingLaws(s, e)
  {
    var x := Leaving(s, e);
    assert x[1..] == [] && s.queue == [s.queue[0]] + s.queue[1..];
  }

  lemma FailureLaws(s: State, e: Event)
    requires Inv(s) && Enabled(s, e) && e.Complete? && !e.ok && s.queue != []
    ensures LeavingLaws(s, e)
  {
    var x := Leaving(s, e);
    AbandonedQueue(s.queue[1..]);
    assert x[1..] == Abandon(s.queue[1..]) && s.queue == [s.queue[0]] + s.queue[1..];
  }

  lemma OtherLaws(s: State, e: Event)
    requires Inv(s) && !e.Complete?
    ensures LeavingLaws(s, e)
  {
  }

  lemma StepLaws(s: State, e: Event)
    requires Inv(s) && Enabled(s, e) && (e.Complete? ==> s.queue != [])
    ensures LeavingLaws(s, e)
  {
    if !e.Complete? {
      OtherLaws(s, e);
    } else if e.ok {
      SuccessLaws(s, e);
    } else {
      FailureLaws(s, e);
    }
  }

  lemma Rejoin<T>(a: seq<T>, b: seq<T>, c: seq<T>, d: seq<T>, e: seq<T>)
    requires b + c == d + e
    ensures a + b + c == a + d + e
  {
    Regroup(a, b, c);
    Regroup(a, d, e);
  }

  lemma QueueLawKept(sent: seq<Entry>, resolved: seq<Resolved>, s: State, e: Event)
    requires Enabled(s, e) && (e.Complete? ==> s.queue != []) && LeavingLaws(s, e)
    requires sent == Entries(resolved) + s.queue
    ensures sent + (if e.Enqueue? then [e.entry] else []) == Entries(resolved + Leaving(s, e)) + Apply(s, e).0.queue
  {
    EntriesAppend(resolved, Leaving(s, e));
    Rejoin(Entries(resolved), s.queue, if e.Enqueue? then [e.entry] else [], Entries(Leaving(s, e)), Apply(s, e).0.queue);
  }

  lemma StartLawKept(resolved: seq<Resolved>, s: State, e: Event)
    requires Enabled(s, e) && (e.Complete? ==> s.queue != []) && LeavingLaws(s, e)
    requires s.started == Started(resolved) + s.inFlight
    ensures Apply(s, e).0.started == Started(resolved + Leaving(s, e)) + Apply(s, e).0.inFlight
  {
    StartedAppend(resolved, Leaving(s, e));
    Rejoin(Started(resolved), s.inFlight, NewWrites(s, e), Started(Leaving(s, e)), Apply(s, e).0.inFlight);
  }

  lemma TakeLawKept(log: Log, step: Step)
    requires Possible(log, step) && !step.Invokes? && Inv(log.state) && TakeLaw(log)
    ensures TakeLaw(Advance(log, step))
  {
    var s, e := log.state, EventOf(log, step);
    if e.Take? {
      var entry := Entry(s.current, e.callback);
      ContentsAppend(log.taken, [entry]);
      assert Contents([entry]) == s.current + [] == s.current;
    } else if e.Fill? {
      Regroup(Contents(log.taken), s.current, e.data);
    }
    assert log.taken + [] == log.taken && log.filled + [] == log.filled;
  }

  lemma OrderLawKept(log: Log, step: Step)
    requires Possible(log, step) && !step.Invokes? && Inv(log.state) && OrderLaw(log)
    ensures OrderLaw(Advance(log, step))
  {
    var next := Advance(log, step);
    assert |log.taken| <= |next.taken| && next.taken[..|log.taken|] == log.taken;
    assert next.sent == Picked(next.taken, next.order);
  }

  lemma CallLawKept(log: Log, step: Step)
    requires Possible(log, step) && !step.Invokes? && Inv(log.state) && CallLaw(log)
    ensures CallLaw(Advance(log, step))
  {
  }

  lemma ResultLawKept(log: Log, step: Step)
    requires Possible(log, step) && !step.Invokes? && Inv(log.state) && ResultLaw(log)
    ensures ResultLaw(Advance(log, step))
  {
    var e := EventOf(log, step);
    StepKeepsInv(log.state, e);
    if e.Complete? {
      CompletionTells(log.state, e.write, e.ok);
    } else {
      OnlyCompletionsTell(log.state, e);
    }
    AgreeMore(log.selected, log.results, Apply(log.state, e).1, e.Complete? && e.ok);
  }

  lemma StepKeepsGood(log: Log, step: Step)
    requires Good(log) && Possible(log, step) && !step.Invokes?
    ensures Good(Advance(log, step))
  {
    var s, e := log.state, EventOf(log, step);
    StepKeepsInv(s, e);
    StepLaws(s, e);
    QueueLawKept(log.sent, log.resolved, s, e);
    SelectedAppend(log.resolved, Leaving(s, e));
    ResultLawKept(log, step);
    StartLawKept(log.resolved, s, e);
    CallLawKept(log, step);
    TakeLawKept(log, step);
    OrderLawKept(log, step);
  }

  lemma CallKeepsGood(log: Log, i: Invocation)
    requires Good(log) && i in log.pending
    ensures Good(Called(log, i))
  {
  }

  /** Every run, whatever the interleaving of calls, completions and callbacks. */
  lemma {:induction false} RunIsGood(steps: seq<Step>)
    ensures Replay(steps).Some? ==> Good(Replay(steps).value)
  {
    if steps != [] && Replay(steps).Some? {
      var before, step := Replay(steps[..|steps| - 1]).value, steps[|steps| - 1];
      RunIsGood(steps[..|steps| - 1]);
      if step.Invokes? {
        CallKeepsGood(before, step.invocation);
      } else {
        StepKeepsGood(before, step);
      }
    }
  }

  // ----- what the laws give a user

  lemma {:induction false} SelectedCallbacks(resolved: seq<Resolved>)
    ensures CallbacksOf(Selected(resolved)) == Callbacks(Entries(resolved))
  {
    if resolved != [] {
      var r := resolved[0];
      SelectedCallbacks(resolved[1..]);
      CallbacksOfAppend(CallOf(r.entry, r.outcome.Written?), Selected(resolved[1..]));
      assert Entries(resolved)[1..] == Entries(resolved[1..]);
    }
  }

  /** When the queue has drained, every callback that is not null has been selected
      exactly once, in the order in which the calls enqueued. */
  lemma EveryCallbackOnce(steps: seq<Step>)
    requires Replay(steps).Some? && Replay(steps).value.state.queue == []
    ensures var log := Replay(steps).value; CallbacksOf(log.selected) == Callbacks(log.sent)
  {
    var log := Replay(steps).value;
    RunIsGood(steps);
    SelectedCallbacks(log.resolved);
    assert log.sent == Entries(log.resolved);
  }

  lemma {:induction false} AllStarted(resolved: seq<Resolved>)
    requires forall r :: r in resolved ==> r.outcome != Abandoned
    ensures Concat(Started(resolved)) == Contents(Entries(resolved))
  {
    if resolved != [] {
      AllStarted(resolved[1..]);
      assert Started(resolved)[1..] == Started(resolved[1..]) && Entries(resolved)[1..] == Entries(resolved[1..]);
    }
  }

  /** If no write has failed and the queue has drained, the writes carried what the calls
      took, in the order in which they enqueued it; what was streamed is what they took, in
      the order in which they took it, and what nobody has taken. */
  lemma EverythingWritten(steps: seq<Step>)
    requires Replay(steps).Some?
    requires var log := Replay(steps).value;
      log.state.queue == [] && forall r :: r in log.resolved ==> r.outcome == Written
    ensures var log := Replay(steps).value;
      && Distinct(log.order, |log.taken|)
      && Concat(log.state.started) == Contents(Picked(log.taken, log.order))
      && log.filled == Contents(log.taken) + log.state.current
  {
    var log := Replay(steps).value;
    RunIsGood(steps);
    AllStarted(log.resolved);
    assert log.sent == Entries(log.resolved) && log.state.started == Started(log.resolved);
  }

  /** 0, 1, ..., n - 1. */
  function InOrder(n: nat): (order: seq<nat>)
    ensures |order| == n
  {
    seq(n, i requires 0 <= i < n => i)
  }

  lemma {:induction false} ContentsSkipEmpty(entries: seq<Entry>, k: nat)
    requires k <= |entries| && forall i :: 0 <= i < k ==> entries[i].content == []
    ensures Contents(entries) == Contents(entries[k..])
  {
    if k > 0 {
      ContentsSkipEmpty(entries[1..], k - 1);
      assert entries[1..][k - 1..] == entries[k..];
    } else {
      assert entries[0..] == entries;
    }
  }

  lemma ContentsStart(entries: seq<Entry>, k: nat, b: byte)
    requires k < |entries| && (forall i :: 0 <= i < k ==> entries[i].content == []) && entries[k].content == [b]
    ensures Contents(entries) != [] && Contents(entries)[0] == b
  {
    ContentsSkipEmpty(entries, k);
  }

  lemma NotEarlier(order: seq<nat>, n: nat, k: nat)
    requires Distinct(order, n) && k < |order| && forall j :: 0 <= j < k ==> order[j] == j
    ensures order[k] >= k
  {
    var at := order[Min(order[k], k)];
  }

  /** Where an order first departs from the order of taking. */
  lemma {:induction false} FirstDeparture(order: seq<nat>, n: nat, k: nat) returns (i: nat)
    requires Distinct(order, n) && order != InOrder(n)
    requires k <= n && k <= |order| && forall j :: 0 <= j < k ==> order[j] == j
    ensures i < n && i <= |order| && (forall j :: 0 <= j < i ==> order[j] == j) && (i < |order| ==> order[i] > i)
    decreases n - k
  {
    if k < n && k < |order| && order[k] == k {
      i := FirstDeparture(order, n, k + 1);
    } else {
      assert |order| == k == n ==> order == InOrder(n);
      if k < |order| {
        NotEarlier(order, n, k);
      }
      i := k;
    }
  }

  /** Entries on which writing in a different order shows. */
  lemma Revealing(order: seq<nat>, n: nat) returns (taken: seq<Entry>)
    requires Distinct(order, n) && order != InOrder(n)
    ensures |taken| == n && Contents(Picked(taken, order)) != Contents(taken)
  {
    var k := FirstDeparture(order, n, 0);
    var other := if k < |order| then order[k] else n;
    taken := seq(n, i requires 0 <= i < n => Entry(if i == k then [1] else if i == other then [2] else [], None));
    ContentsStart(taken, k, 1);
    if k < |order| {
      ContentsStart(Picked(taken, order), k, 2);
    } else {
      ContentsSkipEmpty(Picked(taken, order), k);
    }
  }

  /** The writes carry the data in the order in which it was streamed, whatever it is, if
      and only if the calls enqueue in the order in which they have taken, and all do. */
  lemma DataInOrderIff(order: seq<nat>, n: nat)
    requires Distinct(order, n)
    ensures (forall taken: seq<Entry> :: |taken| == n ==> Contents(Picked(taken, order)) == Contents(taken))
       <==> order == InOrder(n)
  {
    if order == InOrder(n) {
      forall taken: seq<Entry> | |taken| == n
        ensures Contents(Picked(taken, order)) == Contents(taken)
      {
        assert Picked(taken, order) == taken;
      }
    } else {
      var taken := Revealing(order, n);
    }
  }

  /** No call takes while another has taken and not enqueued, as it is for clients without
      data races: taking is not synchronised by `send`, and they cannot get in between. */
  ghost predicate Serialised(steps: seq<Step>) {
    forall i :: 0 <= i < |steps| && Replay(steps[..i]).Some? && steps[i].Happens? && steps[i].event.Take? ==>
      var log := Replay(steps[..i]).value; |log.order| == |log.taken|
  }

  lemma {:induction false} SerialisedInOrder(steps: seq<Step>)
    requires Serialised(steps) && Replay(steps).Some?
    ensures var log := Replay(steps).value;
      |log.taken| <= |log.order| + 1 && |log.order| <= |log.taken| && log.order == InOrder(|log.order|)
  {
    if steps != [] {
      var init, step := steps[..|steps| - 1], steps[|steps| - 1];
      forall i | 0 <= i < |init|
        ensures init[i] == steps[i] && init[..i] == steps[..i]
      {
      }
      SerialisedInOrder(init);
      NextInOrder(Replay(init).value, step);
    }
  }

  lemma AllInOrder(n: nat)
    ensures forall i: nat :: i < n ==> i in InOrder(n)
  {
    forall i: nat | i < n
      ensures i in InOrder(n)
    {
      assert InOrder(n)[i] == i;
    }
  }

  lemma NextInOrder(log: Log, step: Step)
    requires Inv(log.state) && Possible(log, step)
    requires |log.taken| <= |log.order| + 1 && |log.order| <= |log.taken| && log.order == InOrder(|log.order|)
    requires step.Happens? && step.event.Take? ==> |log.order| == |log.taken|
    ensures !step.Invokes? ==>
      var next := Advance(log, step);
      |next.taken| <= |next.order| + 1 && |next.order| <= |next.taken| && next.order == InOrder(|next.order|)
  {
    if step.Enqueues? {
      AllInOrder(|log.order|);
      assert log.order + [step.call] == InOrder(|log.order| + 1);
    }
  }

  /** So for them, when all calls have enqueued, no write has failed and the queue has
      drained, the writes carried all the data in the order in which it was streamed. */
  lemma SerialisedWritesInOrder(steps: seq<Step>)
    requires Serialised(steps) && Replay(steps).Some?
    requires var log := Replay(steps).value;
      |log.order| == |log.taken| && log.state.queue == [] && forall r :: r in log.resolved ==> r.outcome == Written
    ensures var log := Replay(steps).value; log.filled == Concat(log.state.started) + log.state.current
  {
    var log := Replay(steps).value;
    EverythingWritten(steps);
    SerialisedInOrder(steps);
    assert Picked(log.taken, log.order) == log.taken;
  }

  lemma ReplayNext(steps: seq<Step>, step: Step)
    requires Replay(steps).Some? && Possible(Replay(steps).value, step) && !step.Invokes?
    ensures Replay(steps + [step]) == Some(Advance(Replay(steps).value, step))
  {
    assert (steps + [step])[..|steps|] == steps;
  }

  /** A run in which two calls of `send` cross. */
  lemma CrossedSends(x: Data, y: Data) returns (steps: seq<Step>)
    ensures Replay(steps).Some?
    ensures var log := Replay(steps).value; log.filled == x + y && log.state.started == [y, x]
  {
    var log;
    steps, log := TwoTaken(x, y);
    steps := EnqueueCrossed(steps, log, Entry(x, None), Entry(y, None));
  }

  lemma TwoTaken(x: Data, y: Data) returns (steps: seq<Step>, log: Log)
    ensures Replay(steps) == Some(log) && log.state == INITIAL && log.order == []
    ensures log.filled == x + y && |log.taken| == 2
    ensures log.taken[0] == Entry(x, None) && log.taken[1] == Entry(y, None)
  {
    var one;
    steps, one := TakeNext([], START, x);
    assert one.filled == x && one.taken == [Entry(x, None)];
    steps, log := TakeNext(steps, one, y);
    assert log.taken == [Entry(x, None)] + [Entry(y, None)];
  }

  lemma EnqueueCrossed(steps: seq<Step>, log: Log, a: Entry, b: Entry) returns (steps': seq<Step>)
    requires Replay(steps) == Some(log) && log.state == INITIAL && log.order == []
    requires |log.taken| == 2 && log.taken[0] == a && log.taken[1] == b
    ensures Replay(steps').Some? && Replay(steps').value.filled == log.filled
    ensures Replay(steps').value.state.started == [b.content, a.content]
  {
    var one, two;
    TwoWrites(INITIAL, b, a);
    steps', one := EnqueueNext(steps, log, 1);
    steps', two := EnqueueNext(steps', one, 0);
    steps' := CompleteNext(steps', two);
  }

  lemma TwoWrites(s: State, a: Entry, b: Entry)
    requires s == INITIAL
    ensures var t := Apply(Apply(s, Enqueue(a)).0, Enqueue(b)).0;
      t.queue == [a, b] && |t.inFlight| == 1 && Apply(t, Complete(0, true)).0.started == [a.content, b.content]
  {
    assert [a, b][1..] == [b];
  }

  lemma CompleteNext(steps: seq<Step>, log: Log) returns (steps': seq<Step>)
    requires Replay(steps) == Some(log) && |log.state.inFlight| == 1 && log.state.queue != []
    ensures Replay(steps').Some?
    ensures Replay(steps').value.filled == log.filled
    ensures Replay(steps').value.state == Apply(log.state, Complete(0, true)).0
  {
    ReplayNext(steps, Happens(Complete(0, true)));
    return steps + [Happens(Complete(0, true))];
  }

  /** One call takes what is streamed. */
  lemma TakeNext(steps: seq<Step>, log: Log, data: Data) returns (steps': seq<Step>, log': Log)
    requires Replay(steps) == Some(log) && log.state.current == []
    ensures Replay(steps') == Some(log') && log'.state == log.state && log'.order == log.order
    ensures log'.filled == log.filled + data && log'.taken == log.taken + [Entry(data, None)]
  {
    var fill, take := Happens(Fill(data)), Happens(Take(None));
    ReplayNext(steps, fill);
    var filled := Advance(log, fill);
    assert filled.state.current == data && filled.taken == log.taken && filled.order == log.order;
    ReplayNext(steps + [fill], take);
    assert Advance(filled, take).filled == filled.filled;
    return steps + [fill] + [take], Advance(filled, take);
  }

  lemma EnqueueNext(steps: seq<Step>, log: Log, call: nat) returns (steps': seq<Step>, log': Log)
    requires Replay(steps) == Some(log) && Possible(log, Enqueues(call))
    ensures Replay(steps') == Some(log') && log'.state == Apply(log.state, Enqueue(log.taken[call])).0
    ensures log'.filled == log.filled && log'.taken == log.taken && log'.order == log.order + [call]
  {
    ReplayNext(steps, Enqueues(call));
    return steps + [Enqueues(call)], Advance(log, Enqueues(call));
  }
}

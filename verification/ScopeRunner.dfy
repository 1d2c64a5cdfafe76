/**
 The lock-free `ScopeRunner` (task-3a/framework/dep/Simple-Web-Server/utility.hpp) as
 a state machine. Every invocation of `continue_lock` and `stop` is a call of its own;
 one step is one atomic access to `count` or one local branch, so a call's local copy
 of `count` may be stale by the time it is used, and a weak compare-exchange may fail
 for no reason.
 */
module ScopeRunner {

  type Id = nat

  datatype Call =
    | Entering                  // continue_lock: `count` not read yet
    | Trying(expected: int)     // continue_lock: in the loop
    | Denied                    // continue_lock returned nullptr
    | Holding                   // continue_lock returned a lock that is still alive
    | Released                  // that lock has been destroyed
    | Stopping                  // stop: about to compare-exchange 0 with -1
    | Missed(expected: int)     // stop: the exchange failed and loaded `count`
    | Stopped                   // stop returned

  datatype State = State(count: int, calls: map<Id, Call>)

  datatype Action =
    | CallContinue(id: Id)
    | Load(id: Id)
    | Deny(id: Id)
    | Grant(id: Id)
    | Retry(id: Id)
    | Release(id: Id)
    | CallStop(id: Id)
    | Close(id: Id)
    | Miss(id: Id)
    | SeeStopped(id: Id)
    | TryAgain(id: Id)

  const INITIAL := State(0, map[])

  predicate Is(s: State, id: Id, call: Call) {
    id in s.calls && s.calls[id] == call
  }

  predicate IsTrying(s: State, id: Id) {
    id in s.calls && s.calls[id].Trying?
  }

  predicate HasMissed(s: State, id: Id) {
    id in s.calls && s.calls[id].Missed?
  }

  predicate Enabled(s: State, a: Action) {
    match a
    case CallContinue(id) => id !in s.calls
    case Load(id) => Is(s, id, Entering)
    case Deny(id) => IsTrying(s, id) && s.calls[id].expected < 0
    case Grant(id) => IsTrying(s, id) && s.calls[id].expected >= 0 && s.count == s.calls[id].expected
    case Retry(id) => IsTrying(s, id) && s.calls[id].expected >= 0  // also spuriously
    case Release(id) => Is(s, id, Holding)
    case CallStop(id) => id !in s.calls
    case Close(id) => Is(s, id, Stopping) && s.count == 0
    case Miss(id) => Is(s, id, Stopping)  // also spuriously
    case SeeStopped(id) => HasMissed(s, id) && s.calls[id].expected < 0
    case TryAgain(id) => HasMissed(s, id) && s.calls[id].expected >= 0
  }

  function Move(s: State, id: Id, call: Call): State {
    s.(calls := s.calls[id := call])
  }

  function Apply(s: State, a: Action): State
    requires Enabled(s, a)
  {
    match a
    case CallContinue(id) => Move(s, id, Entering)
    case Load(id) => Move(s, id, Trying(s.count))
    case Deny(id) => Move(s, id, Denied)
    case Grant(id) => Move(s, id, Holding).(count := s.calls[id].expected + 1)
    case Retry(id) => Move(s, id, Trying(s.count))
    case Release(id) => Move(s, id, Released).(count := s.count - 1)
    case CallStop(id) => Move(s, id, Stopping)
    case Close(id) => Move(s, id, Stopped).(count := -1)
    case Miss(id) => Move(s, id, Missed(s.count))
    case SeeStopped(id) => Move(s, id, Stopped)
    case TryAgain(id) => Move(s, id, Stopping)
  }

  /** The locks that are alive. */
  function Holders(s: State): set<Id> {
    set id | id in s.calls && s.calls[id] == Holding
  }

  // ----- the invariant

  /** `count` is the number of live locks, or -1 when the scope is closed for good. */
  ghost predicate CountIsHolders(s: State) {
    if s.count == -1 then Holders(s) == {} else s.count == |Holders(s)|
  }

  /** A negative value is only ever seen after the scope was closed, and a call that was
      denied or a stop that returned has seen one. */
  ghost predicate NegativeMeansClosed(s: State, call: Call) {
    match call
    case Trying(expected) => expected < 0 ==> s.count == -1
    case Missed(expected) => expected < 0 ==> s.count == -1
    case Denied => s.count == -1
    case Stopped => s.count == -1
    case _ => true
  }

  ghost predicate Inv(s: State) {
    && s.count >= -1
    && CountIsHolders(s)
    && forall id :: id in s.calls ==> NegativeMeansClosed(s, s.calls[id])
  }

  /** The actions that write `count`. */
  predicate Writes(a: Action) {
    a.Grant? || a.Release? || a.Close?
  }

  lemma HoldersAfter(s: State, a: Action)
    requires Enabled(s, a)
    ensures Holders(Apply(s, a)) ==
            match a
            case Grant(id) => Holders(s) + {id}
            case Release(id) => Holders(s) - {id}
            case _ => Holders(s)
  {
  }

  lemma StepKeepsCount(s: State, a: Action)
    requires Inv(s) && Enabled(s, a)
    ensures var t := Apply(s, a);
      t.count >= -1 && CountIsHolders(t) && (s.count == -1 ==> t.count == -1)
  {
    HoldersAfter(s, a);
    match a {
      case Grant(id) =>
        assert id !in Holders(s);
      case Release(id) =>
        assert id in Holders(s);
      case _ =>
    }
  }

  lemma StepKeepsInv(s: State, a: Action)
    requires Inv(s) && Enabled(s, a)
    ensures Inv(Apply(s, a))
    ensures s.count == -1 ==> Apply(s, a).count == -1
  {
    StepKeepsCount(s, a);
    var t := Apply(s, a);
    forall id | id in t.calls
      ensures NegativeMeansClosed(t, t.calls[id])
    {
      if id in s.calls {
        assert NegativeMeansClosed(s, s.calls[id]);
      }
    }
  }

  // ----- whole runs

  datatype Run = Run(states: seq<State>, actions: seq<Action>)

  /** An interleaving of any number of calls, from a fresh `ScopeRunner`. */
  ghost predicate IsRun(run: Run) {
    && |run.states| == |run.actions| + 1
    && run.states[0] == INITIAL
    && forall i :: 0 <= i < |run.actions| ==>
         Enabled(run.states[i], run.actions[i]) && run.states[i + 1] == Apply(run.states[i], run.actions[i])
  }

  lemma {:induction false} RunKeepsInv(run: Run, i: nat)
    requires IsRun(run) && i < |run.states|
    ensures Inv(run.states[i])
  {
    if i == 0 {
      assert Holders(INITIAL) == {};
    } else {
      RunKeepsInv(run, i - 1);
      StepKeepsInv(run.states[i - 1], run.actions[i - 1]);
    }
  }

  /** -1 is absorbing. */
  lemma {:induction false} ClosedForever(run: Run, i: nat, j: nat)
    requires IsRun(run) && i <= j < |run.states| && run.states[i].count == -1
    ensures run.states[j].count == -1
    decreases j
  {
    if i < j {
      ClosedForever(run, i, j - 1);
      RunKeepsInv(run, j - 1);
      StepKeepsInv(run.states[j - 1], run.actions[j - 1]);
    }
  }

  /** Once any `stop` has returned, no lock is alive and none is ever granted again. */
  lemma AfterStop(run: Run, i: nat, j: nat, id: Id)
    requires IsRun(run) && i <= j < |run.states| && Is(run.states[i], id, Stopped)
    ensures Holders(run.states[j]) == {}
    ensures j < |run.actions| ==> !run.actions[j].Grant? && !run.actions[j].Release?
  {
    RunKeepsInv(run, i);
    assert NegativeMeansClosed(run.states[i], run.states[i].calls[id]);
    ClosedForever(run, i, j);
    RunKeepsInv(run, j);
    assert forall k :: Is(run.states[j], k, Holding) ==> k in Holders(run.states[j]);
  }

  /** `stop` can close the scope exactly while no lock is alive, and `continue_lock`
      returns nullptr only after it was closed. */
  lemma ReturnsAreJustified(run: Run, i: nat, id: Id)
    requires IsRun(run) && i < |run.states|
    ensures Is(run.states[i], id, Stopping) ==>
              (Enabled(run.states[i], Close(id)) <==> Holders(run.states[i]) == {} && run.states[i].count != -1)
    ensures Enabled(run.states[i], Deny(id)) || Enabled(run.states[i], SeeStopped(id)) ==> run.states[i].count == -1
  {
    RunKeepsInv(run, i);
    var s := run.states[i];
    if id in s.calls {
      assert NegativeMeansClosed(s, s.calls[id]);
    }
    assert s.count == 0 <==> Holders(s) == {} && s.count != -1;
  }

  /** A call does not change while only others act. */
  lemma {:induction false} CallUntouched(run: Run, i: nat, j: nat, id: Id)
    requires IsRun(run) && i <= j < |run.states| && id in run.states[i].calls
    requires forall k :: i <= k < j ==> run.actions[k].id != id
    ensures id in run.states[j].calls && run.states[j].calls[id] == run.states[i].calls[id]
    decreases j
  {
    if i < j {
      CallUntouched(run, i, j - 1, id);
    }
  }

  /** Progress of the whole system: between a call's read of `count` and a genuine (not
      spurious) failure of its next compare-exchange, some call has written `count`. */
  lemma FailureMeansProgress(run: Run, i: nat, j: nat, id: Id)
    requires IsRun(run) && i < j < |run.actions|
    requires run.actions[i] == Load(id) || run.actions[i] == Retry(id)
    requires forall k :: i < k < j ==> run.actions[k].id != id
    requires run.actions[j] == Retry(id) && run.states[j].calls[id].expected != run.states[j].count
    ensures exists k :: i < k < j && Writes(run.actions[k])
  {
    CallUntouched(run, i + 1, j, id);
    SomeWrite(run, i + 1, j);
  }

  lemma SilentSteps(s: State, a: Action)
    requires Enabled(s, a) && !Writes(a)
    ensures Apply(s, a).count == s.count
  {
  }

  lemma {:induction false} SomeWrite(run: Run, i: nat, j: nat)
    requires IsRun(run) && i <= j < |run.states| && run.states[j].count != run.states[i].count
    ensures exists k :: i <= k < j && Writes(run.actions[k])
    decreases j
  {
    var a := run.actions[j - 1];
    if !Writes(a) {
      SilentSteps(run.states[j - 1], a);
      SomeWrite(run, i, j - 1);
    }
  }

  // ----- refinement of a scope without counters

  /** What a user sees: a set of locks and whether the scope is closed. */
  datatype Scope = Scope(held: set<Id>, closed: bool)

  function Abstract(s: State): Scope {
    Scope(Holders(s), s.count == -1)
  }

  /** One step of the abstract scope: locks are handed out only while it is open, it is
      closed only while none is alive, and the returns that report closing are truthful. */
  ghost predicate ScopeStep(x: Scope, y: Scope, a: Action) {
    match a
    case Grant(id) => !x.closed && id !in x.held && y == Scope(x.held + {id}, false)
    case Release(id) => !x.closed && id in x.held && y == Scope(x.held - {id}, false)
    case Close(_) => x == Scope({}, false) && y == Scope({}, true)
    case Deny(_) => x.closed && y == x
    case SeeStopped(_) => x.closed && y == x
    case _ => y == x
  }

  lemma RunRefinesScope(run: Run, i: nat)
    requires IsRun(run) && i < |run.actions|
    ensures Abstract(run.states[0]) == Scope({}, false)
    ensures ScopeStep(Abstract(run.states[i]), Abstract(run.states[i + 1]), run.actions[i])
  {
    var s, a := run.states[i], run.actions[i];
    RunKeepsInv(run, 0);
    RunKeepsInv(run, i);
    HoldersAfter(s, a);
    if !a.CallContinue? && !a.CallStop? {
      assert NegativeMeansClosed(s, s.calls[a.id]);
    }
    if a.Release? {
      assert a.id in Holders(s);
    }
  }

  // ----- progress

  predicate HasReturned(call: Call) {
    call == Denied || call == Released || call == Stopped
  }

  /** An action that the code takes when no compare-exchange fails for no reason. */
  predicate Genuine(s: State, a: Action) {
    && Enabled(s, a)
    && (a.Retry? ==> s.calls[a.id].expected != s.count)
    && (a.Miss? ==> s.count != 0)
  }

  /** In every reachable state, a call in the loop of `continue_lock` is granted its lock if
      its exchange happens now, unless its copy of `count` is stale or the scope is closed. */
  lemma GrantedIff(run: Run, i: nat, id: Id, expected: int)
    requires IsRun(run) && i < |run.states| && Is(run.states[i], id, Trying(expected))
    ensures Enabled(run.states[i], Grant(id)) <==> expected == run.states[i].count && run.states[i].count != -1
  {
    RunKeepsInv(run, i);
  }

  /** A call that has not returned can always go on, without any help from failures that
      have no reason, and there is only one way. */
  lemma CanGoOn(s: State, id: Id) returns (a: Action)
    requires Inv(s) && id in s.calls && !HasReturned(s.calls[id])
    ensures a.id == id && Genuine(s, a)
    ensures forall b: Action :: b.id == id && Genuine(s, b) ==> b == a
  {
    match s.calls[id] {
      case Entering => a := Load(id);
      case Trying(expected) => a := if expected < 0 then Deny(id) else if expected == s.count then Grant(id) else Retry(id);
      case Holding => a := Release(id);
      case Stopping => a := if s.count == 0 then Close(id) else Miss(id);
      case Missed(expected) => a := if expected < 0 then SeeStopped(id) else TryAgain(id);
    }
  }

  /** From `s` to `t` by genuine actions of one call. */
  ghost predicate Alone(s: State, id: Id, actions: seq<Action>, t: State)
    decreases |actions|
  {
    if actions == [] then s == t
    else actions[0].id == id && Genuine(s, actions[0]) && Alone(Apply(s, actions[0]), id, actions[1..], t)
  }

  lemma AloneOne(s: State, id: Id, a: Action)
    requires a.id == id && Genuine(s, a)
    ensures Alone(s, id, [a], Apply(s, a))
  {
    assert [a][1..] == [];
  }

  lemma AloneMore(s: State, id: Id, a: Action, actions: seq<Action>, t: State)
    requires a.id == id && Genuine(s, a) && Alone(Apply(s, a), id, actions, t)
    ensures Alone(s, id, [a] + actions, t)
  {
    assert ([a] + actions)[1..] == actions;
  }

  /** `continue_lock` that runs alone from any reachable state returns after at most three
      actions: with a lock if the scope is open, and with nullptr if it is closed. */
  lemma ContinueAlone(s: State, id: Id) returns (actions: seq<Action>, t: State)
    requires Inv(s) && id in s.calls && (s.calls[id].Entering? || s.calls[id].Trying?)
    ensures Alone(s, id, actions, t) && |actions| <= 3
    ensures Is(t, id, if s.count == -1 then Denied else Holding)
  {
    var a := if s.calls[id].Entering? then Load(id) else Retry(id);
    if s.calls[id].Trying? && (s.calls[id].expected < 0 || s.calls[id].expected == s.count) {
      actions, t := DecideAlone(s, id);
    } else {
      var rest;
      rest, t := DecideAlone(Apply(s, a), id);
      AloneMore(s, id, a, rest, t);
      actions := [a] + rest;
    }
  }

  lemma DecideAlone(s: State, id: Id) returns (actions: seq<Action>, t: State)
    requires IsTrying(s, id) && s.count >= -1
    requires s.calls[id].expected == s.count || (s.calls[id].expected < 0 && s.count == -1)
    ensures Alone(s, id, actions, t) && |actions| == 1
    ensures Is(t, id, if s.count == -1 then Denied else Holding)
  {
    var a := if s.calls[id].expected < 0 then Deny(id) else Grant(id);
    AloneOne(s, id, a);
    return [a], Apply(s, a);
  }

  /** `stop` that runs alone while no lock is alive returns after at most three actions, and
      the scope is closed then. */
  lemma StopAlone(s: State, id: Id) returns (actions: seq<Action>, t: State)
    requires Inv(s) && Holders(s) == {} && id in s.calls && (s.calls[id].Stopping? || s.calls[id].Missed?)
    ensures Alone(s, id, actions, t) && |actions| <= 3
    ensures Is(t, id, Stopped) && t.count == -1
  {
    if s.calls[id].Stopping? {
      actions, t := CloseAlone(s, id);
    } else if s.calls[id].expected < 0 {
      assert NegativeMeansClosed(s, s.calls[id]);
      AloneOne(s, id, SeeStopped(id));
      return [SeeStopped(id)], Apply(s, SeeStopped(id));
    } else {
      var rest;
      rest, t := CloseAlone(Apply(s, TryAgain(id)), id);
      AloneMore(s, id, TryAgain(id), rest, t);
      actions := [TryAgain(id)] + rest;
    }
  }

  lemma CloseAlone(s: State, id: Id) returns (actions: seq<Action>, t: State)
    requires Is(s, id, Stopping) && (s.count == 0 || s.count == -1)
    ensures Alone(s, id, actions, t) && |actions| <= 2
    ensures Is(t, id, Stopped) && t.count == -1
  {
    if s.count == 0 {
      AloneOne(s, id, Close(id));
      return [Close(id)], Apply(s, Close(id));
    }
    var missed := Apply(s, Miss(id));
    AloneOne(missed, id, SeeStopped(id));
    AloneMore(s, id, Miss(id), [SeeStopped(id)], Apply(missed, SeeStopped(id)));
    return [Miss(id)] + [SeeStopped(id)], Apply(missed, SeeStopped(id));
  }
}

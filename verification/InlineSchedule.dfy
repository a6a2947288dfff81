/**
 The debounced request protocol of the inline-completion provider (scheduleRequest and supersedePendingSchedule of
 src/autocomplete/coopAutocompleteProvider.ts). Requests and executions are numbered in the order they are made; a
 settled execution runs its cleanup and its callbacks in one step.
 */
module InlineSchedule {
  import opened Wrappers

  // What a request promise or an execution yields: a list of items or null.
  type Reply = Option<seq<string>>

  // listening: the token's cancellation listener is not disposed. reply: None while the promise is unresolved.
  datatype Request = Request(hash: string, aborted: bool, cancelled: bool, listening: bool, reply: Option<Reply>)

  // epoch: how often the repo scope had changed when the execution started. waiters: the requests that joined it.
  datatype Execution = Execution(owner: nat, hash: string, epoch: nat, settled: bool, waiters: seq<nat>)

  // armed: the request whose debounce timer has not fired. requestGeneration is the number of requests made.
  datatype State = State(
    requests: seq<Request>, pending: Option<nat>, armed: Option<nat>,
    executions: seq<Execution>, inFlight: map<string, nat>, epoch: nat)

  datatype Outcome = Fulfilled(reply: Reply) | Rejected

  const Fresh := State([], None, None, [], map[], 0)

  // ---- Steps ------------------------------------------------------------------------------------------------------

  /** A promise keeps its first resolution. */
  function Resolved(r: Request, v: Reply): Request { if r.reply.None? then r.(reply := Some(v)) else r }

  function Superseded(s: State): State
    requires s.pending.Some? ==> s.pending.value < |s.requests|
  {
    match s.pending
    case None => s.(armed := None)
    case Some(g) =>
      s.(armed := None, pending := None,
         requests := s.requests[g := Resolved(s.requests[g].(aborted := true, listening := false), None)])
  }

  function Finish(s: State, g: nat, v: Reply): State
    requires g < |s.requests|
  {
    s.(pending := if s.pending == Some(g) then None else s.pending,
       requests := s.requests[g := Resolved(s.requests[g].(listening := false), v)])
  }

  function FinishAll(s: State, ws: seq<nat>, v: Reply): (r: State)
    requires forall i :: 0 <= i < |ws| ==> ws[i] < |s.requests|
    ensures |r.requests| == |s.requests|
  {
    if ws == [] then s else Finish(FinishAll(s, ws[..|ws| - 1], v), ws[|ws| - 1], v)
  }

  /** The request is not the latest, or its token or its signal fired. */
  predicate Stale(s: State, g: nat)
    requires g < |s.requests|
  {
    g + 1 != |s.requests| || s.requests[g].cancelled || s.requests[g].aborted
  }

  /** The body of the timer: give up, join the execution in flight for the same context, or start one. */
  function Run(s: State, g: nat): State
    requires g < |s.requests|
    requires forall h :: h in s.inFlight ==> s.inFlight[h] < |s.executions|
  {
    var h := s.requests[g].hash;
    if Stale(s, g) then Finish(s, g, None)
    else if h in s.inFlight then
      var e := s.inFlight[h];
      s.(executions := s.executions[e := s.executions[e].(waiters := s.executions[e].waiters + [g])])
    else
      s.(executions := s.executions + [Execution(g, h, s.epoch, false, [])], inFlight := s.inFlight[h := |s.executions|])
  }

  datatype Event =
    | Schedule(hash: string, immediate: bool)
    | TimerFires
    | TokenCancelled(request: nat)
    | Settles(execution: nat, outcome: Outcome)
    | ScopeChanges
    | Disposed

  predicate Enabled(s: State, e: Event) {
    match e
    case TimerFires => s.armed.Some?
    case TokenCancelled(g) => g < |s.requests|
    case Settles(x, _) => x < |s.executions| && !s.executions[x].settled
    case _ => true
  }

  ghost predicate WellFormed(s: State) {
    && (s.pending.Some? ==> s.pending.value < |s.requests|)
    && (s.armed.Some? ==> s.armed.value < |s.requests|)
    && (forall h :: h in s.inFlight ==> s.inFlight[h] < |s.executions|)
    && (forall x :: 0 <= x < |s.executions| ==> s.executions[x].owner < |s.requests|)
    && (forall x, i :: 0 <= x < |s.executions| && 0 <= i < |s.executions[x].waiters| ==> s.executions[x].waiters[i] < |s.requests|)
  }

  /** The new request is registered as the pending one before its timer is set or its body runs. */
  function Registered(s: State, hash: string): State
    requires s.pending.Some? ==> s.pending.value < |s.requests|
  {
    var t := Superseded(s);
    t.(requests := t.requests + [Request(hash, false, false, true, None)], pending := Some(|t.requests|))
  }

  function Cancelled(s: State, g: nat): State
    requires g < |s.requests|
  {
    if !s.requests[g].listening then s
    else
      var r := s.requests[g].(cancelled := true, aborted := true);
      if s.pending == Some(g) then s.(pending := None, requests := s.requests[g := Resolved(r, None)])
      else s.(requests := s.requests[g := r])
  }

  /** The execution is settled and leaves the map, if it is still the one in the map. */
  function Closed(s: State, x: nat): State
    requires x < |s.executions|
  {
    var e := s.executions[x];
    s.(executions := s.executions[x := e.(settled := true)],
       inFlight := if e.hash in s.inFlight && s.inFlight[e.hash] == x then s.inFlight - {e.hash} else s.inFlight)
  }

  function Settled(s: State, x: nat, outcome: Outcome): State
    requires WellFormed(s) && x < |s.executions|
  {
    var e, t := s.executions[x], Closed(s, x);
    match outcome
    case Rejected => t
    case Fulfilled(v) => FinishAll(Finish(t, e.owner, if Stale(t, e.owner) then None else v), e.waiters, v)
  }

  function Next(s: State, e: Event): State
    requires WellFormed(s) && Enabled(s, e)
  {
    match e
    case Schedule(h, immediate) =>
      var t := Registered(s, h);
      var g := |t.requests| - 1;
      if immediate then Run(t, g) else t.(armed := Some(g))
    case TimerFires => Run(s.(armed := None), s.armed.value)
    case TokenCancelled(g) => Cancelled(s, g)
    case Settles(x, outcome) => Settled(s, x, outcome)
    case ScopeChanges => Superseded(s).(inFlight := map[], epoch := s.epoch + 1)
    case Disposed => Superseded(s)
  }

  // ---- The invariant ----------------------------------------------------------------------------------------------

  /** The unresolved promises are exactly the pending schedule, which is the latest request and still live. */
  ghost predicate OnePending(s: State) {
    && (forall g :: 0 <= g < |s.requests| ==> (s.requests[g].reply.None? <==> s.pending == Some(g)))
    && (s.pending.Some? ==>
          && s.pending.value + 1 == |s.requests|
          && var r := s.requests[s.pending.value]; !r.aborted && !r.cancelled && r.listening)
  }

  /** A request resolved with items was never cancelled or aborted, and can no longer be. */
  ghost predicate CleanReplies(s: State) {
    forall g :: 0 <= g < |s.requests| && s.requests[g].reply.Some? ==>
      && (s.requests[g].listening ==> s.requests[g].cancelled && s.requests[g].aborted)
      && (s.requests[g].reply.value.Some? ==> !s.requests[g].aborted && !s.requests[g].cancelled)
  }

  /** A request starts at most one execution, and does not join one if it started one. */
  ghost predicate Roles(s: State) {
    && (forall x, y :: 0 <= x < y < |s.executions| ==> s.executions[x].owner != s.executions[y].owner)
    && (forall x, y, i :: 0 <= x < |s.executions| && 0 <= y < |s.executions| && 0 <= i < |s.executions[y].waiters| ==>
          s.executions[x].owner != s.executions[y].waiters[i])
  }

  /** A request that has neither started nor joined an execution. */
  ghost predicate Idle(s: State, g: nat) {
    && (forall x :: 0 <= x < |s.executions| ==> s.executions[x].owner != g)
    && (forall x, i :: 0 <= x < |s.executions| && 0 <= i < |s.executions[x].waiters| ==> s.executions[x].waiters[i] != g)
  }

  /** The armed timer belongs to the latest request, which is idle, and pending unless it was aborted. */
  ghost predicate ArmedFresh(s: State) {
    s.armed.Some? ==>
      && s.armed.value + 1 == |s.requests| && Idle(s, s.armed.value)
      && (s.pending == s.armed || s.requests[s.armed.value].aborted)
  }

  /** The map holds exactly the unsettled executions started since the repo scope last changed. */
  ghost predicate InFlightExact(s: State)
    requires WellFormed(s)
  {
    && (forall h :: h in s.inFlight ==> var e := s.executions[s.inFlight[h]]; !e.settled && e.hash == h && e.epoch == s.epoch)
    && (forall x :: 0 <= x < |s.executions| ==>
          var e := s.executions[x];
          && e.epoch <= s.epoch
          && (!e.settled && e.epoch == s.epoch ==> e.hash in s.inFlight && s.inFlight[e.hash] == x))
  }

  /** An unsettled execution belongs to the pending request or to an aborted one; a joined one to an aborted one. */
  ghost predicate OwnersAborted(s: State)
    requires WellFormed(s)
  {
    forall x :: 0 <= x < |s.executions| ==>
      var e := s.executions[x];
      && (!e.settled ==> s.pending == Some(e.owner) || s.requests[e.owner].aborted)
      && (e.waiters != [] ==> s.requests[e.owner].aborted)
  }

  ghost predicate RequestsInv(s: State) { OnePending(s) && CleanReplies(s) && ArmedFresh(s) }

  ghost predicate ExecutionsInv(s: State)
    requires WellFormed(s)
  {
    Roles(s) && InFlightExact(s) && OwnersAborted(s)
  }

  ghost predicate Inv(s: State) { WellFormed(s) && RequestsInv(s) && ExecutionsInv(s) }

  // ---- Every step keeps it ----------------------------------------------------------------------------------------

  lemma SupersededKeeps(s: State)
    requires Inv(s)
    ensures Inv(Superseded(s)) && Superseded(s).pending == None && Superseded(s).armed == None
  {
  }

  lemma AppendRequests(s: State, h: string)
    requires Inv(s) && s.pending == None && s.armed == None
    ensures var g := |s.requests|;
      var t := s.(requests := s.requests + [Request(h, false, false, true, None)], pending := Some(g));
      WellFormed(t) && RequestsInv(t) && Idle(t, g)
  {
  }

  lemma AppendExecutions(s: State, h: string)
    requires Inv(s) && s.pending == None && s.armed == None
    ensures var t := s.(requests := s.requests + [Request(h, false, false, true, None)], pending := Some(|s.requests|));
      WellFormed(t) && ExecutionsInv(t)
  {
  }

  lemma RegisteredKeeps(s: State, h: string)
    requires Inv(s)
    ensures var t := Registered(s, h); var g := |t.requests| - 1;
      Inv(t) && t.pending == Some(g) && t.armed == None && Idle(t, g)
  {
    SupersededKeeps(s);
    AppendRequests(Superseded(s), h);
    AppendExecutions(Superseded(s), h);
    hide RequestsInv, ExecutionsInv, Idle, WellFormed;
  }

  lemma ArmedKeeps(s: State)
    requires Inv(s) && s.pending.Some? && Idle(s, s.pending.value)
    ensures Inv(s.(armed := s.pending))
  {
  }

  lemma FinishRequests(s: State, g: nat, v: Reply)
    requires Inv(s) && g < |s.requests| && s.armed != Some(g)
    ensures WellFormed(Finish(s, g, v)) && RequestsInv(Finish(s, g, v))
  {
    hide ExecutionsInv;
  }

  lemma FinishKeeps(s: State, g: nat, v: Reply)
    requires Inv(s) && g < |s.requests| && s.armed != Some(g)
    requires forall x :: 0 <= x < |s.executions| && !s.executions[x].settled ==> s.executions[x].owner != g
    ensures Inv(Finish(s, g, v))
  {
    FinishRequests(s, g, v);
    hide RequestsInv;
  }

  /** The execution a live request joins belongs to another, hence aborted, request. */
  lemma JoinedIsAborted(s: State, g: nat, x: nat)
    requires Inv(s) && g < |s.requests| && x < |s.executions|
    requires !Stale(s, g) && Idle(s, g) && !s.executions[x].settled
    ensures s.requests[s.executions[x].owner].aborted
  {
  }

  lemma JoinKeeps(s: State, g: nat)
    requires Inv(s) && g < |s.requests| && s.armed == None && Idle(s, g)
    requires !Stale(s, g) && s.requests[g].hash in s.inFlight
    ensures Inv(Run(s, g))
  {
    JoinedIsAborted(s, g, s.inFlight[s.requests[g].hash]);
    JoinExecutions(s, g);
    hide ExecutionsInv;
  }

  lemma JoinExecutions(s: State, g: nat)
    requires Inv(s) && g < |s.requests| && Idle(s, g)
    requires !Stale(s, g) && s.requests[g].hash in s.inFlight
    requires s.requests[s.executions[s.inFlight[s.requests[g].hash]].owner].aborted
    ensures WellFormed(Run(s, g)) && ExecutionsInv(Run(s, g))
  {
    hide RequestsInv;
    var t := Run(s, g);
    assert forall y :: 0 <= y < |t.executions| ==> t.executions[y].owner == s.executions[y].owner && t.executions[y].settled == s.executions[y].settled;
  }

  lemma StartKeeps(s: State, g: nat)
    requires Inv(s) && g < |s.requests| && s.armed == None && Idle(s, g)
    requires !Stale(s, g) && s.requests[g].hash !in s.inFlight && s.pending == Some(g)
    ensures Inv(Run(s, g))
  {
    StartExecutions(s, g);
    hide ExecutionsInv;
  }

  lemma StartExecutions(s: State, g: nat)
    requires Inv(s) && g < |s.requests| && Idle(s, g)
    requires !Stale(s, g) && s.requests[g].hash !in s.inFlight && s.pending == Some(g)
    ensures WellFormed(Run(s, g)) && ExecutionsInv(Run(s, g))
  {
    StartedMap(s, g);
    StartedOwners(s, g);
    hide RequestsInv, InFlightExact, OwnersAborted;
  }

  lemma StartedMap(s: State, g: nat)
    requires WellFormed(s) && InFlightExact(s) && g < |s.requests|
    requires !Stale(s, g) && s.requests[g].hash !in s.inFlight
    ensures WellFormed(Run(s, g)) && InFlightExact(Run(s, g))
  {
  }

  lemma StartedOwners(s: State, g: nat)
    requires WellFormed(s) && OwnersAborted(s) && g < |s.requests| && s.pending == Some(g)
    requires !Stale(s, g) && s.requests[g].hash !in s.inFlight
    ensures WellFormed(Run(s, g)) && OwnersAborted(Run(s, g))
  {
  }

  lemma RunKeeps(s: State, g: nat)
    requires Inv(s) && g < |s.requests| && s.armed == None && Idle(s, g)
    requires s.pending == Some(g) || s.requests[g].aborted
    ensures Inv(Run(s, g))
  {
    if Stale(s, g) {
      FinishKeeps(s, g, None);
    } else if s.requests[g].hash in s.inFlight {
      JoinKeeps(s, g);
    } else {
      StartKeeps(s, g);
    }
  }

  lemma CancelledRequests(s: State, g: nat)
    requires Inv(s) && g < |s.requests|
    ensures WellFormed(Cancelled(s, g)) && RequestsInv(Cancelled(s, g))
  {
    hide ExecutionsInv;
  }

  lemma CancelledKeeps(s: State, g: nat)
    requires Inv(s) && g < |s.requests|
    ensures Inv(Cancelled(s, g))
  {
    CancelledRequests(s, g);
    hide RequestsInv;
  }

  lemma {:induction false} FinishAllKeeps(s: State, ws: seq<nat>, v: Reply)
    requires Inv(s) && forall i :: 0 <= i < |ws| ==> ws[i] < |s.requests| && s.armed != Some(ws[i])
    requires forall x, i :: 0 <= x < |s.executions| && 0 <= i < |ws| ==> s.executions[x].owner != ws[i]
    ensures var t := FinishAll(s, ws, v); Inv(t) && t.executions == s.executions && t.armed == s.armed && t.inFlight == s.inFlight
  {
    hide Inv;
    if ws != [] {
      var n := |ws| - 1;
      FinishAllKeeps(s, ws[..n], v);
      FinishKeeps(FinishAll(s, ws[..n], v), ws[n], v);
    }
  }

  lemma ClosedRequests(s: State, x: nat)
    requires Inv(s) && x < |s.executions|
    ensures WellFormed(Closed(s, x)) && RequestsInv(Closed(s, x))
    ensures Roles(Closed(s, x)) && OwnersAborted(Closed(s, x))
  {
    var t := Closed(s, x);
    assert forall y :: 0 <= y < |t.executions| ==>
      t.executions[y].owner == s.executions[y].owner && t.executions[y].waiters == s.executions[y].waiters;
  }

  lemma ClosedKeeps(s: State, x: nat)
    requires Inv(s) && x < |s.executions| && !s.executions[x].settled
    ensures Inv(Closed(s, x))
  {
    ClosedRequests(s, x);
    hide RequestsInv, Roles, OwnersAborted;
  }

  lemma SettledKeeps(s: State, x: nat, outcome: Outcome)
    requires Inv(s) && x < |s.executions| && !s.executions[x].settled
    ensures Inv(Settled(s, x, outcome))
  {
    var e, t := s.executions[x], Closed(s, x);
    ClosedKeeps(s, x);
    if outcome.Fulfilled? {
      var v := if Stale(t, e.owner) then None else outcome.reply;
      FinishKeeps(t, e.owner, v);
      FinishAllKeeps(Finish(t, e.owner, v), e.waiters, outcome.reply);
    }
  }

  lemma ScopeKeeps(s: State)
    requires Inv(s)
    ensures Inv(Superseded(s).(inFlight := map[], epoch := s.epoch + 1))
  {
    SupersededKeeps(s);
    hide Superseded;
  }

  lemma TimerKeeps(s: State)
    requires Inv(s) && s.armed.Some?
    ensures Inv(Next(s, TimerFires))
  {
    RunKeeps(s.(armed := None), s.armed.value);
    hide Run;
  }

  lemma ScheduleKeeps(s: State, h: string, immediate: bool)
    requires Inv(s)
    ensures Inv(Next(s, Schedule(h, immediate)))
  {
    RegisteredKeeps(s, h);
    var t := Registered(s, h);
    hide Inv, Run, Registered, Idle;
    if immediate { RunKeeps(t, |t.requests| - 1); } else { ArmedKeeps(t); }
  }

  lemma NextKeeps(s: State, e: Event)
    requires Inv(s) && Enabled(s, e)
    ensures Inv(Next(s, e))
  {
    hide RequestsInv, ExecutionsInv, WellFormed, Run, Registered, Superseded, Settled, Cancelled;
    match e
    case Schedule(h, immediate) => ScheduleKeeps(s, h, immediate);
    case TimerFires => TimerKeeps(s);
    case TokenCancelled(g) => CancelledKeeps(s, g);
    case Settles(x, outcome) => SettledKeeps(s, x, outcome);
    case ScopeChanges => ScopeKeeps(s);
    case Disposed => SupersededKeeps(s);
  }

  // ---- Whole runs -------------------------------------------------------------------------------------------------

  ghost predicate IsRun(states: seq<State>, events: seq<Event>) {
    && |states| == |events| + 1 && states[0] == Fresh
    && forall i :: 0 <= i < |events| ==> WellFormed(states[i]) && Enabled(states[i], events[i]) && states[i + 1] == Next(states[i], events[i])
  }

  /**
   In every run: the unresolved request promises are exactly the pending schedule, the latest request; a request
   resolved with items was never cancelled or aborted; and the in-flight map holds exactly the unsettled executions
   of the current repo scope.
   */
  lemma {:induction false} EveryRun(states: seq<State>, events: seq<Event>, n: nat)
    requires IsRun(states, events) && n < |states|
    ensures WellFormed(states[n]) && OnePending(states[n]) && CleanReplies(states[n]) && InFlightExact(states[n])
    ensures Inv(states[n])
  {
    if n > 0 {
      EveryRun(states, events, n - 1);
      NextKeeps(states[n - 1], events[n - 1]);
    }
  }

  /**
   In every run a request only ever joins an execution whose own request has been aborted: a live owner would be the
   pending request, and the pending request has no other request beside it.
   */
  lemma JoinedExecutionsWereAborted(states: seq<State>, events: seq<Event>, n: nat, x: nat)
    requires IsRun(states, events) && n < |states| && x < |states[n].executions|
    requires states[n].executions[x].waiters != []
    ensures states[n].executions[x].owner < |states[n].requests| && states[n].requests[states[n].executions[x].owner].aborted
  {
    EveryRun(states, events, n);
  }

  // ---- What one step can do ---------------------------------------------------------------------------------------

  /** Other requests keep their replies in a finish; a resolved promise never changes. */
  lemma {:induction false} FinishAllReplies(s: State, ws: seq<nat>, v: Reply, g: nat)
    requires g < |s.requests| && forall i :: 0 <= i < |ws| ==> ws[i] < |s.requests|
    ensures s.requests[g].reply.Some? ==> FinishAll(s, ws, v).requests[g].reply == s.requests[g].reply
  {
    if ws != [] { FinishAllReplies(s, ws[..|ws| - 1], v, g); }
  }

  lemma ReplyIsFinal(s: State, e: Event, g: nat)
    requires Inv(s) && Enabled(s, e) && g < |s.requests| && s.requests[g].reply.Some?
    ensures g < |Next(s, e).requests| && Next(s, e).requests[g].reply == s.requests[g].reply
  {
    hide RequestsInv, ExecutionsInv;
    if e.Settles? && e.outcome.Fulfilled? {
      var t := Closed(s, e.execution);
      var o := s.executions[e.execution].owner;
      var v := if Stale(t, o) then None else e.outcome.reply;
      FinishAllReplies(Finish(t, o, v), s.executions[e.execution].waiters, e.outcome.reply, g);
    }
  }

  /** A request resolves with items only in the settling of an execution, as the latest, pending and live request. */
  lemma ItemsOnlyForLatest(s: State, e: Event, g: nat)
    requires Inv(s) && Enabled(s, e) && g < |s.requests| && s.requests[g].reply.None?
    requires g < |Next(s, e).requests| && Next(s, e).requests[g].reply.Some? && Next(s, e).requests[g].reply.value.Some?
    ensures e.Settles? && |Next(s, e).requests| == |s.requests| && g + 1 == |s.requests|
    ensures s.pending == Some(g) && !s.requests[g].cancelled && !s.requests[g].aborted
  {
    assert s.pending == Some(g);
    if !e.Settles? { NullOtherwise(s, e, g); }
  }

  lemma NullOtherwise(s: State, e: Event, g: nat)
    requires Inv(s) && Enabled(s, e) && g < |s.requests| && s.requests[g].reply.None? && !e.Settles?
    ensures g < |Next(s, e).requests| && Next(s, e).requests[g].reply in {None, Some(None)}
  {
    hide ExecutionsInv;
  }

  /** A settling execution removes itself from the in-flight map and nothing else. */
  lemma SettleRemovesItself(s: State, x: nat, outcome: Outcome)
    requires Inv(s) && x < |s.executions| && !s.executions[x].settled
    ensures var t := Next(s, Settles(x, outcome));
      && (forall h :: h in t.inFlight <==> h in s.inFlight && s.inFlight[h] != x)
      && (forall h :: h in t.inFlight ==> t.inFlight[h] == s.inFlight[h])
  {
    hide RequestsInv, Roles, OwnersAborted;
    var e, t := s.executions[x], Closed(s, x);
    if outcome.Fulfilled? {
      FinishAllExactly(Finish(t, e.owner, if Stale(t, e.owner) then None else outcome.reply), e.waiters, outcome.reply);
    }
  }

  // ---- Every request is served ------------------------------------------------------------------------------------

  /** Finishing a list of requests resolves the unresolved ones in it and touches nothing else of interest. */
  lemma {:induction false} FinishAllExactly(s: State, ws: seq<nat>, v: Reply)
    requires forall i :: 0 <= i < |ws| ==> ws[i] < |s.requests|
    ensures var t := FinishAll(s, ws, v);
      && t.executions == s.executions && t.inFlight == s.inFlight && t.armed == s.armed
      && t.pending == (if s.pending.Some? && s.pending.value in ws then None else s.pending)
      && forall g :: 0 <= g < |s.requests| && s.requests[g].reply.None? ==>
           t.requests[g].reply == if g in ws then Some(v) else None
  {
    if ws != [] {
      var n := |ws| - 1;
      assert ws == ws[..n] + [ws[n]];
      FinishAllExactly(s, ws[..n], v);
    }
  }

  /** The execution is running for this request, its own or joined. */
  predicate Serves(s: State, x: int, g: nat) {
    0 <= x < |s.executions| && !s.executions[x].settled && (s.executions[x].owner == g || g in s.executions[x].waiters)
  }

  /**
   When an execution settles, the unresolved request it serves, which is still the latest and live, gets exactly its
   reply; every other stays unresolved. If the execution rejects, even the request it serves stays unresolved.
   */
  lemma SettleAnswers(s: State, x: nat, outcome: Outcome, g: nat)
    requires Inv(s) && x < |s.executions| && !s.executions[x].settled
    requires g < |s.requests| && s.requests[g].reply.None?
    ensures var t := Next(s, Settles(x, outcome));
      && g < |t.requests|
      && t.requests[g].reply == (if outcome.Fulfilled? && Serves(s, x, g) then Some(outcome.reply) else None)
      && t.pending == (if outcome.Fulfilled? && Serves(s, x, g) then None else Some(g))
  {
    var e, t := s.executions[x], Closed(s, x);
    if outcome.Fulfilled? {
      FinishAllExactly(Finish(t, e.owner, if Stale(t, e.owner) then None else outcome.reply), e.waiters, outcome.reply);
    }
  }

  /** The pending request has its timer armed or an execution running for it. */
  ghost predicate Awaited(s: State) {
    s.pending.Some? ==> s.armed == s.pending || exists x :: Serves(s, x, s.pending.value)
  }

  lemma RunAwaits(s: State, g: nat)
    requires WellFormed(s) && InFlightExact(s) && g < |s.requests|
    requires s.pending == Some(g) ==> !Stale(s, g)
    requires s.pending == None || s.pending == Some(g)
    ensures Awaited(Run(s, g))
  {
    var t, h := Run(s, g), s.requests[g].hash;
    if !Stale(s, g) {
      var x := if h in s.inFlight then s.inFlight[h] else |s.executions|;
      assert g in t.executions[x].waiters || t.executions[x].owner == g;
      assert Serves(t, x, g);
    }
  }

  lemma NextAwaits(s: State, e: Event)
    requires Inv(s) && Enabled(s, e) && Awaited(s)
    requires !(e.Settles? && e.outcome.Rejected?)
    ensures Awaited(Next(s, e))
  {
    match e
    case Schedule(h, immediate) =>
      var t := Registered(s, h);
      RegisteredKeeps(s, h);
      if immediate { RunAwaits(t, |t.requests| - 1); }
    case TimerFires => RunAwaits(s.(armed := None), s.armed.value);
    case Settles(x, outcome) => SettleAwaits(s, x, outcome.reply);
    case TokenCancelled(g) => CancelAwaits(s, g);
    case _ =>
  }

  lemma CancelAwaits(s: State, g: nat)
    requires WellFormed(s) && Awaited(s) && g < |s.requests|
    ensures Awaited(Cancelled(s, g))
  {
    var t := Cancelled(s, g);
    if t.pending.Some? && s.armed != s.pending {
      var x :| Serves(s, x, s.pending.value);
      assert Serves(t, x, t.pending.value);
    }
  }

  lemma SettleAwaits(s: State, x: nat, v: Reply)
    requires Inv(s) && Awaited(s) && x < |s.executions| && !s.executions[x].settled
    ensures Awaited(Next(s, Settles(x, Fulfilled(v))))
  {
    if s.pending.Some? {
      SettleAnswers(s, x, Fulfilled(v), s.pending.value);
    }
    var e, c := s.executions[x], Closed(s, x);
    FinishAllExactly(Finish(c, e.owner, if Stale(c, e.owner) then None else v), e.waiters, v);
    var t := Next(s, Settles(x, Fulfilled(v)));
    hide Inv;
    if t.pending.Some? && s.armed != s.pending {
      var y :| Serves(s, y, s.pending.value);
      assert Serves(t, y, t.pending.value);
    }
  }

  /**
   No request is forgotten: in every run without a rejected execution the unresolved request has its timer armed or an
   execution running for it, so firing the timer and settling the execution answer it.
   */
  lemma {:induction false} NobodyForgotten(states: seq<State>, events: seq<Event>, n: nat)
    requires IsRun(states, events) && n < |states|
    requires forall i :: 0 <= i < |events| && events[i].Settles? ==> events[i].outcome.Fulfilled?
    ensures Awaited(states[n])
  {
    if n > 0 {
      NobodyForgotten(states, events, n - 1);
      EveryRun(states, events, n - 1);
      NextAwaits(states[n - 1], events[n - 1]);
    }
  }

  // ---- The provider -----------------------------------------------------------------------------------------------

  /** The fields scheduleRequest works on, with the ledger of requests and executions made so far. */
  class CoopAutocompleteProvider {
    var requestGeneration: nat
    var debounceTimer: Option<nat>
    var pendingSchedule: Option<nat>
    var inFlightByHash: map<string, nat>
    var requests: seq<Request>
    var executions: seq<Execution>
    var repoScopes: nat

    ghost function View(): State
      reads this
    {
      State(requests, pendingSchedule, debounceTimer, executions, inFlightByHash, repoScopes)
    }

    ghost predicate Valid()
      reads this
    {
      Inv(View()) && requestGeneration == |requests|
    }

    constructor ()
      ensures Valid() && View() == Fresh
    {
      requestGeneration, debounceTimer, pendingSchedule, inFlightByHash := 0, None, None, map[];
      requests, executions, repoScopes := [], [], 0;
    }

    method SupersedePendingSchedule()
      requires Valid()
      modifies this
      ensures Valid() && View() == Superseded(old(View()))
    {
      hide RequestsInv, ExecutionsInv;
      SupersededKeeps(View());
      debounceTimer := None;
      if pendingSchedule.Some? {
        var g := pendingSchedule.value;
        requests := requests[g := requests[g].(aborted := true)];
        requests := requests[g := requests[g].(listening := false)];
        requests := requests[g := Resolved(requests[g], None)];
        pendingSchedule := None;
        assert requests == Superseded(old(View())).requests;
      }
    }

    method FinishRequest(g: nat, items: Reply)
      requires g < |requests|
      modifies this`pendingSchedule, this`requests
      ensures View() == Finish(old(View()), g, items)
    {
      if pendingSchedule == Some(g) { pendingSchedule := None; }
      requests := requests[g := requests[g].(listening := false)];
      requests := requests[g := Resolved(requests[g], items)];
    }

    method RunRequest(g: nat)
      requires g < |requests| && requestGeneration == |requests| && forall h :: h in inFlightByHash ==> inFlightByHash[h] < |executions|
      modifies this
      ensures View() == Run(old(View()), g) && requestGeneration == old(requestGeneration)
    {
      if g + 1 != requestGeneration || requests[g].cancelled || requests[g].aborted {
        FinishRequest(g, None);
        return;
      }
      var hash := requests[g].hash;
      if hash in inFlightByHash {
        var x := inFlightByHash[hash];
        executions := executions[x := executions[x].(waiters := executions[x].waiters + [g])];
        return;
      }
      inFlightByHash := inFlightByHash[hash := |executions|];
      executions := executions + [Execution(g, hash, repoScopes, false, [])];
    }

    method ScheduleRequest(hash: string, debounceMs: int) returns (request: nat)
      requires Valid()
      modifies this
      ensures Valid() && View() == Next(old(View()), Schedule(hash, debounceMs <= 0))
      ensures request == |old(requests)| && request + 1 == requestGeneration
    {
      hide RequestsInv, ExecutionsInv;
      ScheduleKeeps(View(), hash, debounceMs <= 0);
      ghost var before := View();
      SupersedePendingSchedule();
      RegisteredKeeps(before, hash);
      request := |requests|;
      requestGeneration := requestGeneration + 1;
      requests := requests + [Request(hash, false, false, true, None)];
      pendingSchedule := Some(request);
      assert View() == Registered(before, hash);
      if debounceMs <= 0 { RunRequest(request); } else { debounceTimer := Some(request); }
    }

    method TimerFires()
      requires Valid() && debounceTimer.Some?
      modifies this
      ensures Valid() && View() == Next(old(View()), Event.TimerFires)
    {
      hide RequestsInv, ExecutionsInv;
      TimerKeeps(View());
      var g := debounceTimer.value;
      debounceTimer := None;
      RunRequest(g);
    }

    method TokenCancelled(g: nat)
      requires Valid() && g < |requests|
      modifies this
      ensures Valid() && View() == Next(old(View()), Event.TokenCancelled(g))
    {
      hide RequestsInv, ExecutionsInv;
      CancelledKeeps(View(), g);
      if !requests[g].listening { return; }
      requests := requests[g := requests[g].(cancelled := true)];
      requests := requests[g := requests[g].(aborted := true)];
      if pendingSchedule == Some(g) {
        requests := requests[g := Resolved(requests[g], None)];
        pendingSchedule := None;
      }
      assert requests == Cancelled(old(View()), g).requests;
    }

    method ExecutionSettles(x: nat, outcome: Outcome)
      requires Valid() && x < |executions| && !executions[x].settled
      modifies this
      ensures Valid() && View() == Next(old(View()), Settles(x, outcome))
    {
      hide RequestsInv, ExecutionsInv;
      ghost var before := View();
      SettledKeeps(before, x, outcome);
      var execution := executions[x];
      assert execution.owner < |requests| && forall i :: 0 <= i < |execution.waiters| ==> execution.waiters[i] < |requests|;
      executions := executions[x := execution.(settled := true)];
      if execution.hash in inFlightByHash && inFlightByHash[execution.hash] == x {
        inFlightByHash := inFlightByHash - {execution.hash};
      }
      assert View() == Closed(before, x);
      if outcome.Rejected? { return; }
      var g := execution.owner;
      if g + 1 != requestGeneration || requests[g].cancelled || requests[g].aborted {
        FinishRequest(g, None);
      } else {
        FinishRequest(g, outcome.reply);
      }
      FinishWaiters(execution.waiters, outcome.reply);
    }

    method FinishWaiters(ws: seq<nat>, items: Reply)
      requires forall i :: 0 <= i < |ws| ==> ws[i] < |requests|
      modifies this`pendingSchedule, this`requests
      ensures View() == FinishAll(old(View()), ws, items)
    {
      for i := 0 to |ws|
        invariant |requests| == |old(requests)|
        invariant View() == FinishAll(old(View()), ws[..i], items)
      {
        FinishRequest(ws[i], items);
        assert ws[..i + 1][..i] == ws[..i];
      }
      assert ws[..|ws|] == ws;
    }

    /** A request under another repository or branch drops everything in flight. */
    method RepoScopeChanges()
      requires Valid()
      modifies this
      ensures Valid() && View() == Next(old(View()), ScopeChanges)
    {
      hide RequestsInv, ExecutionsInv;
      ScopeKeeps(View());
      SupersedePendingSchedule();
      inFlightByHash := map[];
      repoScopes := repoScopes + 1;
    }
  }
}

/**
 What the steps of the inline request protocol bring about (scheduleRequest and supersedePendingSchedule of
 src/autocomplete/coopAutocompleteProvider.ts), and what a cancelled or superseded request receives in every run.
 */
module InlineEffects {
  import opened Wrappers
  import opened InlineSchedule

  /** The request is answered with null; every other request keeps its promise as it was. */
  ghost predicate AnsweredNull(s: State, t: State, g: nat) {
    && |t.requests| >= |s.requests|
    && forall r :: 0 <= r < |s.requests| ==>
         t.requests[r].reply == if r == g && s.requests[r].reply.None? then Some(None) else s.requests[r].reply
  }

  /** No request is answered. */
  ghost predicate NobodyAnswered(s: State, t: State) {
    |t.requests| >= |s.requests| && forall r :: 0 <= r < |s.requests| ==> t.requests[r].reply == s.requests[r].reply
  }

  /** Superseding: the pending request, if any, is answered with null, the timer is cleared, and nothing is pending. */
  ghost predicate PendingAnsweredNull(s: State, t: State) {
    && |t.requests| >= |s.requests|
    && forall r :: 0 <= r < |s.requests| ==>
         t.requests[r].reply == if s.pending == Some(r) then Some(None) else s.requests[r].reply
  }

  /** The request joined the running execution of its context, or else started one, which is now the running one. */
  ghost predicate NowServed(s: State, t: State, g: nat, hash: string)
    requires forall h :: h in s.inFlight ==> s.inFlight[h] < |s.executions|
  {
    if hash in s.inFlight then
      var x := s.inFlight[hash];
      && t.inFlight == s.inFlight
      && t.executions == s.executions[x := s.executions[x].(waiters := s.executions[x].waiters + [g])]
    else
      && t.inFlight == s.inFlight[hash := |s.executions|]
      && t.executions == s.executions + [Execution(g, hash, s.epoch, false, [])]
  }

  // ---- One step -----------------------------------------------------------------------------------------------------

  /** A cancelled request that was unresolved is answered with null at once, and nothing is pending any more. */
  lemma CancelAnswersNull(s: State, g: nat)
    requires Inv(s) && g < |s.requests| && s.requests[g].reply.None?
    ensures var t := Next(s, TokenCancelled(g));
      && AnsweredNull(s, t, g) && t.pending == None && |t.requests| == |s.requests|
      && t.executions == s.executions && t.inFlight == s.inFlight && t.armed == s.armed
  {
  }

  /** Cancelling a request that has resolved answers nobody and leaves the pending request pending. */
  lemma LateCancelChangesNothing(s: State, g: nat)
    requires Inv(s) && g < |s.requests| && s.requests[g].reply.Some?
    ensures var t := Next(s, TokenCancelled(g));
      && NobodyAnswered(s, t) && t.pending == s.pending && t.armed == s.armed
      && t.executions == s.executions && t.inFlight == s.inFlight
  {
  }

  /** A new request supersedes the pending one and is pending itself: with its timer armed, or served at once. */
  lemma ScheduleSupersedes(s: State, hash: string, immediate: bool)
    requires Inv(s)
    ensures var t, g := Next(s, Schedule(hash, immediate)), |s.requests|;
      && |t.requests| == g + 1 && t.requests[g].hash == hash && t.requests[g].reply.None?
      && PendingAnsweredNull(s, t) && t.pending == Some(g)
      && (if immediate then t.armed == None && NowServed(s, t, g, hash)
          else t.armed == Some(g) && t.executions == s.executions && t.inFlight == s.inFlight)
  {
  }

  /** The timer serves the request it was set for while that is pending, and does nothing for an aborted one. */
  lemma TimerServes(s: State)
    requires Inv(s) && s.armed.Some?
    ensures var t, g := Next(s, TimerFires), s.armed.value;
      && t.armed == None && NobodyAnswered(s, t) && t.pending == s.pending
      && (if s.pending == Some(g) then NowServed(s, t, g, s.requests[g].hash)
          else t.executions == s.executions && t.inFlight == s.inFlight)
  {
  }

  /** A change of the repo scope answers the pending request with null and forgets every running execution. */
  lemma ScopeForgets(s: State)
    requires Inv(s)
    ensures var t := Next(s, ScopeChanges);
      && PendingAnsweredNull(s, t) && t.pending == None && t.armed == None
      && t.inFlight == map[] && t.executions == s.executions && t.epoch == s.epoch + 1
  {
  }

  /** Disposing answers the pending request with null and stops the timer. */
  lemma DisposeAnswersNull(s: State)
    requires Inv(s)
    ensures var t := Next(s, Disposed);
      && PendingAnsweredNull(s, t) && t.pending == None && t.armed == None
      && t.inFlight == s.inFlight && t.executions == s.executions
  {
  }

  /** A settling execution is settled for good; no other execution changes. */
  lemma SettleSettles(s: State, x: nat, outcome: Outcome)
    requires Inv(s) && x < |s.executions| && !s.executions[x].settled
    ensures var t := Next(s, Settles(x, outcome));
      t.executions == s.executions[x := s.executions[x].(settled := true)] && t.armed == s.armed
  {
    var e, t := s.executions[x], Closed(s, x);
    if outcome.Fulfilled? {
      FinishAllExactly(Finish(t, e.owner, if Stale(t, e.owner) then None else outcome.reply), e.waiters, outcome.reply);
    }
  }

  // ---- Whole runs ---------------------------------------------------------------------------------------------------

  /** In every run a resolved promise keeps its value to the end. */
  lemma {:induction false} RepliesLast(states: seq<State>, events: seq<Event>, i: nat, n: nat, g: nat)
    requires IsRun(states, events) && i <= n < |states|
    requires g < |states[i].requests| && states[i].requests[g].reply.Some?
    ensures g < |states[n].requests| && states[n].requests[g].reply == states[i].requests[g].reply
    decreases n - i
  {
    if i < n {
      RepliesLast(states, events, i, n - 1, g);
      EveryRun(states, events, n - 1);
      hide Next, Inv;
      ReplyIsFinal(states[n - 1], events[n - 1], g);
    }
  }

  /** In every run a request whose token is cancelled while it is unresolved is answered with null, for good. */
  lemma CancelledGetsNull(states: seq<State>, events: seq<Event>, i: nat, n: nat, g: nat)
    requires IsRun(states, events) && i < n < |states|
    requires events[i] == TokenCancelled(g) && g < |states[i].requests| && states[i].requests[g].reply.None?
    ensures g < |states[n].requests| && states[n].requests[g].reply == Some(None)
    ensures states[i + 1].pending == None
  {
    EveryRun(states, events, i);
    hide Next, Inv;
    CancelAnswersNull(states[i], g);
    RepliesLast(states, events, i + 1, n, g);
  }

  /** So a request that resolved with items was not cancelled before it resolved. */
  lemma ItemsMeanNotCancelled(states: seq<State>, events: seq<Event>, n: nat, g: nat)
    requires IsRun(states, events) && n < |states|
    requires g < |states[n].requests| && states[n].requests[g].reply.Some? && states[n].requests[g].reply.value.Some?
    ensures forall i :: 0 <= i < n && events[i] == TokenCancelled(g) ==> g < |states[i].requests| && states[i].requests[g].reply.Some?
  {
    forall i | 0 <= i < n && events[i] == TokenCancelled(g) ensures g < |states[i].requests| && states[i].requests[g].reply.Some? {
      Cancellable(states, events, i, g);
      if states[i].requests[g].reply.None? {
        CancelledGetsNull(states, events, i, n, g);
      }
    }
  }

  lemma Cancellable(states: seq<State>, events: seq<Event>, i: nat, g: nat)
    requires IsRun(states, events) && i < |events| && events[i] == TokenCancelled(g)
    ensures g < |states[i].requests|
  {
    EveryRun(states, events, i);
    hide Next;
  }

  /** In every run a request that is pending when another is scheduled is answered with null, for good. */
  lemma SupersededGetsNull(states: seq<State>, events: seq<Event>, i: nat, n: nat, g: nat)
    requires IsRun(states, events) && i < n < |states|
    requires (events[i].Schedule? || events[i].ScopeChanges? || events[i].Disposed?) && states[i].pending == Some(g)
    ensures g < |states[n].requests| && states[n].requests[g].reply == Some(None)
  {
    EveryRun(states, events, i);
    var s, e := states[i], events[i];
    assert g < |s.requests|;
    assert states[i + 1] == Next(s, e);
    hide Next, Inv;
    match e {
      case Schedule(h, immediate) => ScheduleSupersedes(s, h, immediate);
      case ScopeChanges => ScopeForgets(s);
      case Disposed => DisposeAnswersNull(s);
    }
    RepliesLast(states, events, i + 1, n, g);
  }
}

/**
 Sharing of in-flight fetches by document (CompletionRouter.fetchCompletions and executeFetch of
 src/autocomplete/completionRouter.ts). A fetch that settles runs its finally cleanup in the same step. What the
 request answers and what ranking makes of it are left open.
 */
module CompletionRouterModel {
  import opened Wrappers

  // What fetchCompletions derives from its arguments: the document key, the prompt prefix, the text around it and the
  // context hash.
  datatype Call = Call(docKey: string, prefix: string, surrounding: string, hash: string)

  // The race of the request against its timeout and the linked abort signals: won once the request has answered.
  datatype Race = Racing | Won | Lost

  // What a fetch resolves with; it never rejects.
  datatype Reply = Reply(completions: seq<string>, error: Option<string>)

  // aborted: its controller fired. reply: None while the fetch is unsettled.
  datatype Fetch = Fetch(origin: Call, race: Race, aborted: bool, reply: Option<Reply>)

  // How a call was served: early (privacy or cache), by another call's fetch, or by its own.
  datatype Service = Early | Shared(fetch: nat) | Own(fetch: nat)

  datatype Served = Served(call: Call, service: Service)

  datatype State = State(fetches: seq<Fetch>, inFlight: map<string, nat>, log: seq<Served>)

  const Fresh := State([], map[], [])

  predicate ProperlyExtends(longer: string, shorter: string) { |longer| > |shorter| && longer[..|shorter|] == shorter }

  /** A call may share a fetch: the same context, or a longer prefix in the same surroundings. */
  predicate Compatible(c: Call, f: Fetch) {
    c.hash == f.origin.hash || (c.surrounding == f.origin.surrounding && ProperlyExtends(c.prefix, f.origin.prefix))
  }

  predicate Live(f: Fetch) { f.reply.None? && !f.aborted }

  // How executeFetch ends: with ranked completions, or in its catch clause.
  datatype Outcome = Ranked(completions: seq<string>) | Threw(message: string)

  datatype Event =
    | Calls(call: Call, early: bool)
    | RequestAnswers(fetch: nat)
    | RequestFails(fetch: nat)
    | CallerAborts(fetch: nat)
    | Settles(fetch: nat, outcome: Outcome)

  ghost predicate WellFormed(s: State) { forall k :: k in s.inFlight ==> s.inFlight[k] < |s.fetches| }

  ghost predicate Enabled(s: State, e: Event) {
    match e
    case Calls(_, _) => true
    case RequestAnswers(f) => f < |s.fetches| && s.fetches[f].race.Racing?
    case RequestFails(f) => f < |s.fetches| && s.fetches[f].race.Racing?
    case CallerAborts(f) => f < |s.fetches|
    case Settles(f, outcome) =>
      && f < |s.fetches| && s.fetches[f].reply.None?
      && (if outcome.Ranked? then s.fetches[f].race.Won? else !s.fetches[f].race.Racing?)
  }

  /** An abort signal ends the race if it is still on; a request that has answered is ranked all the same. */
  function Stopped(f: Fetch): Fetch { if f.race.Racing? then f.(race := Lost) else f }

  /** The return value of executeFetch: its catch clause reports no error when its own controller fired. */
  function ReplyOf(f: Fetch, outcome: Outcome): Reply {
    match outcome
    case Ranked(completions) => Reply(completions, None)
    case Threw(message) => Reply([], if f.aborted then None else Some(message))
  }

  function Started(s: State, c: Call): State {
    s.(fetches := s.fetches + [Fetch(c, Racing, false, None)],
       inFlight := s.inFlight[c.docKey := |s.fetches|],
       log := s.log + [Served(c, Own(|s.fetches|))])
  }

  function Aborted(s: State, key: string): State
    requires WellFormed(s) && key in s.inFlight
  {
    var x := s.inFlight[key];
    s.(fetches := s.fetches[x := Stopped(s.fetches[x]).(aborted := true)], inFlight := s.inFlight - {key})
  }

  function Next(s: State, e: Event): State
    requires WellFormed(s) && Enabled(s, e)
  {
    match e
    case Calls(c, true) => s.(log := s.log + [Served(c, Early)])
    case Calls(c, false) =>
      if c.docKey in s.inFlight && !s.fetches[s.inFlight[c.docKey]].aborted then
        var x := s.inFlight[c.docKey];
        if Compatible(c, s.fetches[x]) then s.(log := s.log + [Served(c, Shared(x))])
        else Started(Aborted(s, c.docKey), c)
      else Started(s, c)
    case RequestAnswers(f) => s.(fetches := s.fetches[f := s.fetches[f].(race := Won)])
    case RequestFails(f) => s.(fetches := s.fetches[f := s.fetches[f].(race := Lost)])
    case CallerAborts(f) => s.(fetches := s.fetches[f := Stopped(s.fetches[f])])
    case Settles(f, outcome) =>
      var k := s.fetches[f].origin.docKey;
      s.(fetches := s.fetches[f := s.fetches[f].(reply := Some(ReplyOf(s.fetches[f], outcome)))],
         inFlight := if k in s.inFlight && s.inFlight[k] == f then s.inFlight - {k} else s.inFlight)
  }

  // ---- The invariant ----------------------------------------------------------------------------------------------

  /** The map holds, under each document key, exactly the live fetch of that document. */
  ghost predicate MapExact(s: State)
    requires WellFormed(s)
  {
    && (forall k :: k in s.inFlight ==> s.fetches[s.inFlight[k]].origin.docKey == k && Live(s.fetches[s.inFlight[k]]))
    && (forall f :: 0 <= f < |s.fetches| && Live(s.fetches[f]) ==>
          s.fetches[f].origin.docKey in s.inFlight && s.inFlight[s.fetches[f].origin.docKey] == f)
  }

  /** Every shared fetch belongs to the caller's document and was compatible with the call. */
  ghost predicate SharesCompatible(s: State) {
    forall i :: 0 <= i < |s.log| ==>
      match s.log[i].service
      case Early => true
      case Own(f) => f < |s.fetches| && s.fetches[f].origin == s.log[i].call
      case Shared(f) => f < |s.fetches| && s.fetches[f].origin.docKey == s.log[i].call.docKey && Compatible(s.log[i].call, s.fetches[f])
  }

  /** A fetch that settled has run its race; if it lost, its reply is empty, and names an error unless it was aborted. */
  predicate ReplyOk(f: Fetch) {
    && (f.aborted ==> !f.race.Racing?)
    && (f.reply.Some? ==>
          && !f.race.Racing?
          && (f.race.Lost? ==> f.reply.value.completions == [] && (f.reply.value.error.None? <==> f.aborted))
          && (f.reply.value.error.Some? ==> f.reply.value.completions == []))
  }

  ghost predicate RepliesOk(s: State) { forall f :: 0 <= f < |s.fetches| ==> ReplyOk(s.fetches[f]) }

  ghost predicate Inv(s: State) { WellFormed(s) && MapExact(s) && SharesCompatible(s) && RepliesOk(s) }

  lemma StartedKeepsMap(s: State, c: Call)
    requires WellFormed(s) && MapExact(s) && c.docKey !in s.inFlight
    ensures WellFormed(Started(s, c)) && MapExact(Started(s, c))
  {
  }

  lemma AbortedKeepsMap(s: State, key: string)
    requires WellFormed(s) && MapExact(s) && key in s.inFlight
    ensures WellFormed(Aborted(s, key)) && MapExact(Aborted(s, key))
  {
  }

  lemma NextKeepsMap(s: State, e: Event)
    requires Inv(s) && Enabled(s, e)
    ensures WellFormed(Next(s, e)) && MapExact(Next(s, e))
  {
    hide SharesCompatible, Compatible, RepliesOk;
    match e
    case Calls(c, early) =>
      if !early {
        if c.docKey in s.inFlight {
          AbortedKeepsMap(s, c.docKey);
          StartedKeepsMap(Aborted(s, c.docKey), c);
        } else {
          StartedKeepsMap(s, c);
        }
        hide MapExact, Started;
      }
    case Settles(f, outcome) => SettledKeepsMap(s, f, outcome);
    case _ => RaceKeepsMap(s, e);
  }

  lemma SettledKeepsMap(s: State, f: nat, outcome: Outcome)
    requires WellFormed(s) && MapExact(s) && Enabled(s, Settles(f, outcome))
    ensures WellFormed(Next(s, Settles(f, outcome))) && MapExact(Next(s, Settles(f, outcome)))
  {
    hide ReplyOf;
  }

  lemma RaceKeepsMap(s: State, e: Event)
    requires WellFormed(s) && MapExact(s) && Enabled(s, e) && (e.RequestAnswers? || e.RequestFails? || e.CallerAborts?)
    ensures WellFormed(Next(s, e)) && MapExact(Next(s, e))
  {
    var f, t := e.fetch, Next(s, e);
    assert forall g :: 0 <= g < |s.fetches| ==> t.fetches[g].origin == s.fetches[g].origin && (Live(t.fetches[g]) <==> Live(s.fetches[g]));
  }

  lemma NextKeepsShares(s: State, e: Event)
    requires Inv(s) && Enabled(s, e)
    ensures SharesCompatible(Next(s, e))
  {
    hide ProperlyExtends, RepliesOk, ReplyOf;
    var t := Next(s, e);
    assert forall f :: 0 <= f < |s.fetches| ==> f < |t.fetches| && t.fetches[f].origin == s.fetches[f].origin;
    assert forall i :: 0 <= i < |s.log| ==> i < |t.log| && t.log[i] == s.log[i];
  }

  lemma NextKeepsReplies(s: State, e: Event)
    requires Inv(s) && Enabled(s, e)
    ensures RepliesOk(Next(s, e))
  {
    hide SharesCompatible, Compatible;
    var t := Next(s, e);
    forall f | 0 <= f < |t.fetches| ensures ReplyOk(t.fetches[f]) {
      if f < |s.fetches| { assert ReplyOk(s.fetches[f]); }
    }
  }

  lemma NextKeeps(s: State, e: Event)
    requires Inv(s) && Enabled(s, e)
    ensures Inv(Next(s, e))
  {
    NextKeepsMap(s, e);
    NextKeepsShares(s, e);
    NextKeepsReplies(s, e);
    hide MapExact, SharesCompatible, RepliesOk, Next;
  }

  ghost predicate IsRun(states: seq<State>, events: seq<Event>) {
    && |states| == |events| + 1 && states[0] == Fresh
    && forall i :: 0 <= i < |events| ==> WellFormed(states[i]) && Enabled(states[i], events[i]) && states[i + 1] == Next(states[i], events[i])
  }

  lemma {:induction false} RunKeeps(states: seq<State>, events: seq<Event>, n: nat)
    requires IsRun(states, events) && n < |states|
    ensures Inv(states[n])
  {
    if n > 0 {
      RunKeeps(states, events, n - 1);
      NextKeeps(states[n - 1], events[n - 1]);
    }
  }

  /** In every run a document has at most one live fetch, and it is the one in the map. */
  lemma OneLiveFetch(states: seq<State>, events: seq<Event>, n: nat, f: nat, g: nat)
    requires IsRun(states, events) && n < |states|
    requires f < |states[n].fetches| && g < |states[n].fetches|
    requires Live(states[n].fetches[f]) && Live(states[n].fetches[g]) && states[n].fetches[f].origin.docKey == states[n].fetches[g].origin.docKey
    ensures f == g && states[n].fetches[f].origin.docKey in states[n].inFlight && states[n].inFlight[states[n].fetches[f].origin.docKey] == f
  {
    RunKeeps(states, events, n);
  }

  /** What may be shared: a fetch of the same context hash, or one whose prefix the call's properly extends in the same surroundings. */
  lemma CompatibleMeans(c: Call, f: Fetch)
    ensures Compatible(c, f) <==> c.hash == f.origin.hash || (c.surrounding == f.origin.surrounding && f.origin.prefix < c.prefix)
  {
    var p := f.origin.prefix;
    if p <= c.prefix { assert c.prefix[..|p|] == p; }
  }

  /** A call is served by exactly one of its own fetch, a live compatible fetch of its document, or an early return. */
  lemma CallServed(s: State, c: Call)
    requires Inv(s)
    ensures var t := Next(s, Calls(c, false)); var last := t.log[|s.log|];
      && |t.log| == |s.log| + 1 && last.call == c
      && match last.service
         case Early => false
         case Shared(f) => f < |s.fetches| && Live(s.fetches[f]) && s.fetches[f].origin.docKey == c.docKey && Compatible(c, s.fetches[f]) && t.fetches == s.fetches
         case Own(f) =>
           && f == |s.fetches| && |t.fetches| == f + 1 && Live(t.fetches[f])
           && forall g :: 0 <= g < f && Live(s.fetches[g]) && s.fetches[g].origin.docKey == c.docKey ==> !Compatible(c, s.fetches[g])
  {
  }

  /** A fetch is aborted only by an incompatible call for its own document; every other fetch is untouched. */
  lemma AbortedOnlyByRival(s: State, e: Event, f: nat)
    requires Inv(s) && Enabled(s, e) && f < |s.fetches| && !s.fetches[f].aborted
    ensures f < |Next(s, e).fetches|
    ensures Next(s, e).fetches[f].aborted <==>
      e.Calls? && !e.early && Live(s.fetches[f]) && e.call.docKey == s.fetches[f].origin.docKey && !Compatible(e.call, s.fetches[f])
  {
    hide ProperlyExtends;
  }

  /** A finishing fetch never removes a newer one. */
  lemma SettleRemovesItself(s: State, f: nat, outcome: Outcome)
    requires Inv(s) && Enabled(s, Settles(f, outcome))
    ensures var t := Next(s, Settles(f, outcome));
      && (forall k :: k in t.inFlight <==> k in s.inFlight && s.inFlight[k] != f)
      && (forall k :: k in t.inFlight ==> t.inFlight[k] == s.inFlight[k])
  {
  }

  // ---- What a call receives -----------------------------------------------------------------------------------------

  /** What the i-th call resolves with; a longer prefix filters the shared completions by the members it knows. */
  function Received(s: State, i: nat, known: (Call, seq<string>) -> seq<string>): Option<Reply>
    requires i < |s.log| && SharesCompatible(s)
  {
    var call := s.log[i].call;
    match s.log[i].service
    case Early => None
    case Own(f) => s.fetches[f].reply
    case Shared(f) =>
      var reply := s.fetches[f].reply;
      if reply.None? || call.hash == s.fetches[f].origin.hash then reply
      else Some(reply.value.(completions := known(call, reply.value.completions)))
  }

  /** How a race goes: won when the request answers first, lost when it fails or a signal fires before that. */
  lemma RaceSteps(s: State, e: Event, f: nat)
    requires Inv(s) && Enabled(s, e) && f < |s.fetches|
    ensures f < |Next(s, e).fetches|
    ensures !s.fetches[f].race.Racing? ==> Next(s, e).fetches[f].race == s.fetches[f].race
    ensures s.fetches[f].race.Racing? ==> (Next(s, e).fetches[f].race.Won? <==> e == RequestAnswers(f))
    ensures s.fetches[f].race.Racing? ==>
      (Next(s, e).fetches[f].race.Lost? <==> e == RequestFails(f) || e == CallerAborts(f) || Next(s, e).fetches[f].aborted)
  {
    hide SharesCompatible, ProperlyExtends;
    assert ReplyOk(s.fetches[f]);
  }

  /** A fetch that ranks its completions gives exactly them to its own call and to every call of the same context. */
  lemma RankedIsReceived(s: State, f: nat, completions: seq<string>, i: nat, known: (Call, seq<string>) -> seq<string>)
    requires Inv(s) && Enabled(s, Settles(f, Ranked(completions))) && i < |s.log|
    ensures var t := Next(s, Settles(f, Ranked(completions)));
      && Inv(t) && t.log == s.log
      && (s.log[i].service == Own(f) ==> Received(t, i, known) == Some(Reply(completions, None)))
      && (s.log[i].service == Shared(f) ==>
            Received(t, i, known) ==
              Some(Reply(if s.log[i].call.hash == s.fetches[f].origin.hash then completions else known(s.log[i].call, completions), None)))
  {
    NextKeeps(s, Settles(f, Ranked(completions)));
    hide MapExact, RepliesOk;
  }

  /** A fetch that throws gives no completions, and its message unless its own controller fired. */
  lemma ThrownIsReceived(s: State, f: nat, message: string, i: nat, known: (Call, seq<string>) -> seq<string>)
    requires Inv(s) && Enabled(s, Settles(f, Threw(message))) && i < |s.log| && s.log[i].service in {Own(f), Shared(f)}
    requires forall c :: known(c, []) == []
    ensures var t := Next(s, Settles(f, Threw(message)));
      Inv(t) && t.log == s.log && Received(t, i, known) == Some(Reply([], if s.fetches[f].aborted then None else Some(message)))
  {
    NextKeeps(s, Settles(f, Threw(message)));
    hide MapExact, RepliesOk;
  }

  /** In every run a request that has answered is ranked, whatever its callers do after that. */
  lemma {:induction false} AnsweredStaysWon(states: seq<State>, events: seq<Event>, i: nat, n: nat, f: nat)
    requires IsRun(states, events) && i < n < |states| && events[i] == RequestAnswers(f)
    ensures f < |states[n].fetches| && states[n].fetches[f].race.Won?
    decreases n
  {
    RunKeeps(states, events, n - 1);
    assert states[n] == Next(states[n - 1], events[n - 1]);
    if i < n - 1 { AnsweredStaysWon(states, events, i, n - 1, f); }
    hide Next, Inv;
    FetchExists(states[n - 1], events[n - 1], f);
    RaceSteps(states[n - 1], events[n - 1], f);
  }

  lemma FetchExists(s: State, e: Event, f: nat)
    requires Enabled(s, e) && (e == RequestAnswers(f) || f < |s.fetches|)
    ensures f < |s.fetches| && (e == RequestAnswers(f) ==> s.fetches[f].race.Racing?)
  {
  }

  /** A lost race stays lost. */
  lemma {:induction false} LostStaysLost(states: seq<State>, events: seq<Event>, i: nat, n: nat, f: nat)
    requires IsRun(states, events) && i <= n < |states|
    requires f < |states[i].fetches| && states[i].fetches[f].race.Lost?
    ensures f < |states[n].fetches| && states[n].fetches[f].race.Lost?
    decreases n - i
  {
    if i < n {
      LostStaysLost(states, events, i, n - 1, f);
      assert states[n] == Next(states[n - 1], events[n - 1]);
    }
  }

  /**
   In every run, once the call that started a fetch gives up while its request is unanswered, everyone the fetch
   serves, also a call that joins it afterwards, gets no completions, and an error unless a rival call aborted it.
   */
  lemma AbandonedFetchAnswersNothing(
      states: seq<State>, events: seq<Event>, i: nat, n: nat, f: nat, j: nat, known: (Call, seq<string>) -> seq<string>)
    requires IsRun(states, events) && i < n < |states|
    requires events[i] == CallerAborts(f) && f < |states[i].fetches| && states[i].fetches[f].race.Racing?
    requires j < |states[n].log| && states[n].log[j].service in {Own(f), Shared(f)}
    requires forall c :: known(c, []) == []
    ensures SharesCompatible(states[n]) && f < |states[n].fetches|
    ensures states[n].fetches[f].reply.Some? ==>
      var r := Received(states[n], j, known);
      r.Some? && r.value.completions == [] && (r.value.error.None? <==> states[n].fetches[f].aborted)
  {
    RunKeeps(states, events, n);
    assert states[i + 1] == Next(states[i], events[i]);
    LostStaysLost(states, events, i + 1, n, f);
    assert ReplyOk(states[n].fetches[f]);
  }

  /**
   And such a call can join: giving up does not take the fetch out of sharing, so a compatible call shares it, and the
   only thing it can then receive is the empty reply with an error.
   */
  lemma AbandonedFetchIsShared(s: State, f: nat, c: Call, outcome: Outcome, known: (Call, seq<string>) -> seq<string>)
    requires Inv(s) && f < |s.fetches| && Live(s.fetches[f]) && s.fetches[f].race.Racing?
    requires c.docKey == s.fetches[f].origin.docKey && Compatible(c, s.fetches[f])
    requires forall c :: known(c, []) == []
    ensures var t := Next(s, CallerAborts(f));
      && Inv(t)
      && var u := Next(t, Calls(c, false));
      && Inv(u) && u.log == s.log + [Served(c, Shared(f))]
      && (Enabled(u, Settles(f, outcome)) <==> outcome.Threw?)
      && (outcome.Threw? ==>
            var v := Next(u, Settles(f, outcome));
            Inv(v) && Received(v, |s.log|, known) == Some(Reply([], Some(outcome.message))))
  {
    var t := Next(s, CallerAborts(f));
    NextKeeps(s, CallerAborts(f));
    NextKeeps(t, Calls(c, false));
    var u := Next(t, Calls(c, false));
    assert u.log == s.log + [Served(c, Shared(f))] && u.fetches[f] == s.fetches[f].(race := Lost);
    if outcome.Threw? { NextKeeps(u, Settles(f, outcome)); }
  }

  // ---- The router -------------------------------------------------------------------------------------------------

  class CompletionRouter {
    var fetches: seq<Fetch>
    var inFlightByDoc: map<string, nat>
    var log: seq<Served>

    ghost function View(): State
      reads this
    {
      State(fetches, inFlightByDoc, log)
    }

    ghost predicate Valid()
      reads this
    {
      Inv(View())
    }

    constructor ()
      ensures Valid() && View() == Fresh
    {
      fetches, inFlightByDoc, log := [], map[], [];
    }

    /** fetchCompletions up to its await. */
    method FetchCompletions(call: Call, early: bool) returns (service: Service)
      requires Valid()
      modifies this
      ensures Valid() && View() == Next(old(View()), Calls(call, early))
      ensures log == old(log) + [Served(call, service)]
    {
      NextKeeps(View(), Calls(call, early));
      hide SharesCompatible, MapExact;
      if early {
        service := Early;
        log := log + [Served(call, service)];
        return;
      }
      if call.docKey in inFlightByDoc && !fetches[inFlightByDoc[call.docKey]].aborted {
        var existing := inFlightByDoc[call.docKey];
        var prefixCompatible := call.surrounding == fetches[existing].origin.surrounding && ProperlyExtends(call.prefix, fetches[existing].origin.prefix);
        var sameHash := fetches[existing].origin.hash == call.hash;
        if prefixCompatible || sameHash {
          service := Shared(existing);
          log := log + [Served(call, service)];
          return;
        }
        fetches := fetches[existing := Stopped(fetches[existing]).(aborted := true)];
        inFlightByDoc := inFlightByDoc - {call.docKey};
      }
      service := Own(|fetches|);
      inFlightByDoc := inFlightByDoc[call.docKey := |fetches|];
      fetches := fetches + [Fetch(call, Racing, false, None)];
      log := log + [Served(call, service)];
    }

    /** The request answers before the timeout and the abort signals. */
    method RequestAnswers(f: nat)
      requires Valid() && f < |fetches| && fetches[f].race.Racing?
      modifies this
      ensures Valid() && View() == Next(old(View()), Event.RequestAnswers(f))
    {
      NextKeeps(View(), Event.RequestAnswers(f));
      fetches := fetches[f := fetches[f].(race := Won)];
    }

    /** The request is rejected or times out. */
    method RequestFails(f: nat)
      requires Valid() && f < |fetches| && fetches[f].race.Racing?
      modifies this
      ensures Valid() && View() == Next(old(View()), Event.RequestFails(f))
    {
      NextKeeps(View(), Event.RequestFails(f));
      fetches := fetches[f := fetches[f].(race := Lost)];
    }

    /** The signal of the call that started the fetch fires. */
    method CallerAborts(f: nat)
      requires Valid() && f < |fetches|
      modifies this
      ensures Valid() && View() == Next(old(View()), Event.CallerAborts(f))
    {
      NextKeeps(View(), Event.CallerAborts(f));
      fetches := fetches[f := Stopped(fetches[f])];
    }

    /** The end of executeFetch and the finally block of the call that started it. */
    method FetchSettles(f: nat, outcome: Outcome) returns (reply: Reply)
      requires Valid() && Enabled(View(), Settles(f, outcome))
      modifies this
      ensures Valid() && View() == Next(old(View()), Settles(f, outcome)) && fetches[f].reply == Some(reply)
    {
      NextKeeps(View(), Settles(f, outcome));
      if outcome.Ranked? {
        reply := Reply(outcome.completions, None);
      } else if fetches[f].aborted {
        reply := Reply([], None);
      } else {
        reply := Reply([], Some(outcome.message));
      }
      fetches := fetches[f := fetches[f].(reply := Some(reply))];
      var docKey := fetches[f].origin.docKey;
      if docKey in inFlightByDoc && inFlightByDoc[docKey] == f {
        inFlightByDoc := inFlightByDoc - {docKey};
      }
    }
  }
}

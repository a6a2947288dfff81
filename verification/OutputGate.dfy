/**
 The output gate of a chat turn (createChatOutputGate of src/chat/chatResponseTiming.ts): chunks are queued until the
 minimum delay has passed, then passed on. Each step reads isCancelled once; onChunk does not call push.
 */
module OutputGate {
  import opened SseReader

  // What was passed to onChunk: a pushed chunk, or the final content of complete.
  datatype Output = Chunk(text: string) | Final(text: string)

  // settled: the gate promise has resolved. delivered and accepted are the ledger: everything passed to onChunk, and
  // every chunk pushed while not cancelled.
  datatype State = State(
    open: bool, settled: bool, queue: seq<string>, receivedAnswer: bool, delivered: seq<Output>, accepted: seq<string>)

  predicate Blank(s: string) { Trim(s) == "" }

  /** A gate with no delay left is open from the start. */
  function Created(startedAt: int, now: int, minVisibleMs: int): State {
    var remaining := RemainingDelay(startedAt, now, minVisibleMs);
    State(remaining <= 0, remaining <= 0, [], false, [], [])
  }

  function RemainingDelay(startedAt: int, now: int, minVisibleMs: int): int {
    var d := minVisibleMs - (now - startedAt);
    if d > 0 then d else 0
  }

  function Outputs(chunks: seq<string>): seq<Output> { seq(|chunks|, i requires 0 <= i < |chunks| => Chunk(chunks[i])) }

  /** The pushed chunks among the outputs. */
  function Chunks(out: seq<Output>): seq<string> {
    if out == [] then []
    else Chunks(out[..|out| - 1]) + if out[|out| - 1].Chunk? then [out[|out| - 1].text] else []
  }

  function Finals(out: seq<Output>): nat {
    if out == [] then 0 else Finals(out[..|out| - 1]) + if out[|out| - 1].Final? then 1 else 0
  }

  // ---- Steps ------------------------------------------------------------------------------------------------------

  datatype Event =
    | Push(chunk: string, cancelled: bool)
    | TimerFires(cancelled: bool)
    | WaitResumes(cancelled: bool)
    | CompleteResumes(content: string, cancelled: bool)

  /** Code after `await gate` runs only once the gate promise has resolved. */
  predicate Enabled(s: State, e: Event) {
    match e
    case Push(_, _) => true
    case TimerFires(_) => !s.settled
    case _ => s.settled
  }

  function Opened(s: State): State { s.(open := true, queue := [], delivered := s.delivered + Outputs(s.queue)) }

  function Next(s: State, e: Event): State
    requires Enabled(s, e)
  {
    match e
    case Push(c, cancelled) =>
      if cancelled then s
      else
        var t := s.(receivedAnswer := s.receivedAnswer || !Blank(c), accepted := s.accepted + [c]);
        if s.open then t.(delivered := s.delivered + [Chunk(c)]) else t.(queue := s.queue + [c])
    case TimerFires(cancelled) => if cancelled then s.(settled := true) else Opened(s).(settled := true)
    case WaitResumes(cancelled) => if !s.open && !cancelled then Opened(s) else s
    case CompleteResumes(content, cancelled) =>
      if !s.receivedAnswer && !Blank(content) && !cancelled
      then s.(receivedAnswer := true, delivered := s.delivered + [Final(content)])
      else s
  }

  // ---- The invariant ----------------------------------------------------------------------------------------------

  /**
   Delivered chunks followed by queued chunks are the accepted pushes; an open gate holds nothing back; at most one
   final text was delivered; an answer was received exactly when a non-blank chunk or a final text was.
   */
  ghost predicate Inv(s: State) {
    && Chunks(s.delivered) + s.queue == s.accepted
    && (s.open ==> s.queue == [] && s.settled)
    && Finals(s.delivered) <= 1
    && (s.receivedAnswer <==> Finals(s.delivered) == 1 || Answered(s.accepted))
  }

  /** Some chunk is not blank. */
  ghost predicate Answered(chunks: seq<string>) { exists c :: c in chunks && !Blank(c) }

  lemma AnsweredSnoc(chunks: seq<string>, c: string)
    ensures Answered(chunks + [c]) <==> Answered(chunks) || !Blank(c)
  {
    hide Blank;
    assert forall d :: d in chunks + [c] <==> d in chunks || d == c;
  }

  lemma {:induction false} OutputsConcat(out: seq<Output>, more: seq<Output>)
    ensures Chunks(out + more) == Chunks(out) + Chunks(more) && Finals(out + more) == Finals(out) + Finals(more)
  {
    if more == [] {
      assert out + more == out;
    } else {
      var n := |more| - 1;
      assert (out + more)[..|out + more| - 1] == out + more[..n];
      OutputsConcat(out, more[..n]);
    }
  }

  lemma {:induction false} OutputsAreChunks(chunks: seq<string>)
    ensures Chunks(Outputs(chunks)) == chunks && Finals(Outputs(chunks)) == 0
  {
    if chunks != [] {
      var n := |chunks| - 1;
      assert Outputs(chunks)[..n] == Outputs(chunks[..n]);
      OutputsAreChunks(chunks[..n]);
      assert chunks == chunks[..n] + [chunks[n]];
    }
  }

  lemma OneOutput(o: Output)
    ensures Chunks([o]) == (if o.Chunk? then [o.text] else []) && Finals([o]) == if o.Final? then 1 else 0
  {
    assert [o][..0] == [];
  }

  lemma OpenedKeeps(s: State)
    requires Inv(s)
    ensures Inv(Opened(s).(settled := true))
  {
    OutputsConcat(s.delivered, Outputs(s.queue));
    OutputsAreChunks(s.queue);
    hide Chunks, Finals, Blank, Outputs;
  }

  lemma PushKeeps(s: State, c: string)
    requires Inv(s)
    ensures Inv(Next(s, Push(c, false)))
  {
    OutputsConcat(s.delivered, [Chunk(c)]);
    OneOutput(Chunk(c));
    AnsweredSnoc(s.accepted, c);
    assert (Chunks(s.delivered) + s.queue) + [c] == Chunks(s.delivered) + (s.queue + [c]);
    if s.open { assert Chunks(s.delivered) + [] == Chunks(s.delivered) && (Chunks(s.delivered) + [c]) + [] == Chunks(s.delivered) + [c]; }
    hide Blank, Answered;
  }

  lemma CompleteKeeps(s: State, content: string, cancelled: bool)
    requires Inv(s) && s.settled
    ensures Inv(Next(s, CompleteResumes(content, cancelled)))
  {
    OutputsConcat(s.delivered, [Final(content)]);
    OneOutput(Final(content));
    assert Chunks(s.delivered) + [] == Chunks(s.delivered);
    hide Blank, Answered;
  }

  lemma NextKeeps(s: State, e: Event)
    requires Inv(s) && Enabled(s, e)
    ensures Inv(Next(s, e))
  {
    hide Chunks, Finals, Blank, Answered;
    match e
    case Push(c, cancelled) => if !cancelled { PushKeeps(s, c); }
    case TimerFires(cancelled) => if !cancelled { OpenedKeeps(s); }
    case WaitResumes(cancelled) => if !cancelled { OpenedKeeps(s); assert s.settled; }
    case CompleteResumes(content, cancelled) => CompleteKeeps(s, content, cancelled);
  }

  // ---- Whole runs -------------------------------------------------------------------------------------------------

  ghost predicate IsRun(states: seq<State>, events: seq<Event>) {
    && |states| == |events| + 1
    && (exists startedAt, now, min :: states[0] == Created(startedAt, now, min))
    && forall i :: 0 <= i < |events| ==> Enabled(states[i], events[i]) && states[i + 1] == Next(states[i], events[i])
  }

  /** In every interleaving delivery is a prefix of the accepted pushes, in order, and complete while the gate is open. */
  lemma {:induction false} EveryRun(states: seq<State>, events: seq<Event>, n: nat)
    requires IsRun(states, events) && n < |states|
    ensures Inv(states[n])
    ensures Chunks(states[n].delivered) <= states[n].accepted
    ensures states[n].open ==> Chunks(states[n].delivered) == states[n].accepted
  {
    if n > 0 {
      EveryRun(states, events, n - 1);
      NextKeeps(states[n - 1], events[n - 1]);
    }
  }

  /** The chunks pushed while not cancelled, in order. */
  function Pushes(events: seq<Event>): seq<string> {
    if events == [] then []
    else
      var e := events[|events| - 1];
      Pushes(events[..|events| - 1]) + if e.Push? && !e.cancelled then [e.chunk] else []
  }

  /** In every interleaving an open gate has delivered exactly the uncancelled pushes, in order, and a closed one none. */
  lemma {:induction false} DeliveredExactly(states: seq<State>, events: seq<Event>, n: nat)
    requires IsRun(states, events) && n < |states|
    ensures states[n].accepted == Pushes(events[..n])
    ensures Chunks(states[n].delivered) == if states[n].open then Pushes(events[..n]) else []
  {
    hide Next, Inv, Chunks;
    EveryRun(states, events, n);
    if n == 0 {
      NothingYet(states[0]);
    } else {
      var s, e := states[n - 1], events[n - 1];
      DeliveredExactly(states, events, n - 1);
      EveryRun(states, events, n - 1);
      assert events[..n][..n - 1] == events[..n - 1];
      StepAccepts(s, e);
      if !states[n].open { ClosedStep(s, e); }
    }
  }

  lemma NothingYet(s: State)
    requires exists startedAt, now, min :: s == Created(startedAt, now, min)
    ensures s.accepted == [] && Chunks(s.delivered) == []
  {
  }

  lemma StepAccepts(s: State, e: Event)
    requires Enabled(s, e)
    ensures Next(s, e).accepted == s.accepted + if e.Push? && !e.cancelled then [e.chunk] else []
  {
  }

  lemma ClosedStep(s: State, e: Event)
    requires Inv(s) && Enabled(s, e) && !Next(s, e).open
    ensures !s.open && Chunks(Next(s, e).delivered) == Chunks(s.delivered)
  {
    if e.CompleteResumes? {
      OutputsConcat(s.delivered, [Final(e.content)]);
      OneOutput(Final(e.content));
    }
    hide Blank, Answered, Finals;
  }

  /** A gate is open from the start exactly when the minimum delay has passed; else it waits for the rest of it. */
  lemma OpenFromStart(startedAt: int, now: int, minVisibleMs: int)
    ensures var s := Created(startedAt, now, minVisibleMs);
      && (s.open <==> now >= startedAt + minVisibleMs) && (s.settled <==> s.open)
      && s.queue == [] && s.delivered == [] && s.accepted == [] && !s.receivedAnswer
      && (!s.open ==> now + RemainingDelay(startedAt, now, minVisibleMs) == startedAt + minVisibleMs)
  {
  }

  predicate OpensGate(e: Event) { (e.TimerFires? || e.WaitResumes?) && !e.cancelled }

  /** The gate is open exactly when it was from the start or its timer or a waiter resumed without a cancel. */
  lemma {:induction false} OpenExactly(states: seq<State>, events: seq<Event>, n: nat)
    requires IsRun(states, events) && n < |states|
    ensures states[n].open <==> states[0].open || exists i :: 0 <= i < n && OpensGate(events[i])
  {
    if n > 0 {
      OpenExactly(states, events, n - 1);
      var s, e := states[n - 1], events[n - 1];
      assert Next(s, e).open <==> s.open || OpensGate(e);
    }
  }

  /** No event after a cancelled one reads the turn as uncancelled: a stopped turn stays stopped. */
  ghost predicate CancelLasts(events: seq<Event>) {
    forall i, j :: 0 <= i < j < |events| && events[i].cancelled ==> events[j].cancelled
  }

  /**
   While cancelling is for good, nothing is stranded: once the gate promise has resolved and the turn was last read as
   uncancelled, the gate is open and has delivered every accepted chunk.
   */
  lemma NothingStranded(states: seq<State>, events: seq<Event>, n: nat)
    requires IsRun(states, events) && CancelLasts(events) && n < |states|
    requires states[n].settled && (n > 0 ==> !events[n - 1].cancelled)
    ensures states[n].open && Chunks(states[n].delivered) == states[n].accepted
  {
    EveryRun(states, events, n);
    forall i | 0 <= i < n ensures !events[i].cancelled {}
    SettledOpens(states, events, n);
  }

  lemma {:induction false} SettledOpens(states: seq<State>, events: seq<Event>, n: nat)
    requires IsRun(states, events) && n < |states| && forall i :: 0 <= i < n ==> !events[i].cancelled
    ensures states[n].settled ==> states[n].open
  {
    if n > 0 {
      SettledOpens(states, events, n - 1);
      assert states[n] == Next(states[n - 1], events[n - 1]);
    }
  }

  /** complete delivers its text exactly when it may still answer: not cancelled, not blank, and nothing else answered. */
  lemma CompleteExactly(s: State, content: string, cancelled: bool)
    requires Inv(s) && s.settled
    ensures var t := Next(s, CompleteResumes(content, cancelled));
      var answers := !cancelled && !Blank(content) && Finals(s.delivered) == 0 && forall c :: c in s.accepted ==> Blank(c);
      t.delivered == (if answers then s.delivered + [Final(content)] else s.delivered) && t.queue == s.queue && t.accepted == s.accepted
  {
  }

  /**
   A cancel that is lifted again after the timer fired leaves accepted text undelivered: complete neither flushes the
   queue nor adds the final text.
   */
  lemma LiftedCancelStrandsQueue()
    ensures var s0 := Created(0, 0, 1);
      var s1 := Next(s0, Push("a", false));
      var s2 := Next(s1, TimerFires(true));
      var s3 := Next(s2, CompleteResumes("a", false));
      s3.accepted == ["a"] && s3.delivered == [] && s3.queue == ["a"]
  {
    assert !IsSpace('a');
    assert TrimStart("a") == "a" && TrimEnd("a") == "a";
  }

  // ---- The gate ---------------------------------------------------------------------------------------------------

  class ChatOutputGate {
    var open: bool
    var settled: bool
    var queue: seq<string>
    var receivedAnswer: bool
    var delivered: seq<Output>
    ghost var accepted: seq<string>

    ghost function View(): State
      reads this
    {
      State(open, settled, queue, receivedAnswer, delivered, accepted)
    }

    ghost predicate Valid()
      reads this
    {
      Inv(View())
    }

    constructor (startedAt: int, now: int, minVisibleMs: int)
      ensures Valid() && View() == Created(startedAt, now, minVisibleMs)
    {
      var remaining := RemainingDelay(startedAt, now, minVisibleMs);
      open, settled, queue, receivedAnswer, delivered, accepted := remaining <= 0, remaining <= 0, [], false, [], [];
    }

    method OnChunk(o: Output)
      modifies this`delivered
      ensures delivered == old(delivered) + [o]
    {
      delivered := delivered + [o];
    }

    method Flush()
      modifies this`open, this`queue, this`delivered
      ensures View() == Opened(old(View()))
    {
      open := true;
      for i := 0 to |queue|
        invariant open && queue == old(queue) && delivered == old(delivered) + Outputs(queue[..i])
      {
        OnChunk(Chunk(queue[i]));
        assert Outputs(queue[..i + 1]) == Outputs(queue[..i]) + [Chunk(queue[i])];
      }
      assert queue[..|queue|] == queue;
      queue := [];
    }

    method Push(chunk: string, cancelled: bool)
      requires Valid()
      modifies this
      ensures Valid() && View() == Next(old(View()), Event.Push(chunk, cancelled))
    {
      NextKeeps(View(), Event.Push(chunk, cancelled));
      hide Inv;
      if cancelled { return; }
      receivedAnswer := receivedAnswer || Trim(chunk) != "";
      accepted := accepted + [chunk];
      if open {
        OnChunk(Chunk(chunk));
        return;
      }
      queue := queue + [chunk];
    }

    method TimerFires(cancelled: bool)
      requires Valid() && !settled
      modifies this
      ensures Valid() && View() == Next(old(View()), Event.TimerFires(cancelled))
    {
      NextKeeps(View(), Event.TimerFires(cancelled));
      hide Inv;
      settled := true;
      if cancelled { return; }
      Flush();
    }

    method WaitResumes(cancelled: bool)
      requires Valid() && settled
      modifies this
      ensures Valid() && View() == Next(old(View()), Event.WaitResumes(cancelled))
    {
      NextKeeps(View(), Event.WaitResumes(cancelled));
      hide Inv;
      if !open && !cancelled { Flush(); }
    }

    method CompleteResumes(content: string, cancelled: bool)
      requires Valid() && settled
      modifies this
      ensures Valid() && View() == Next(old(View()), Event.CompleteResumes(content, cancelled))
    {
      NextKeeps(View(), Event.CompleteResumes(content, cancelled));
      hide Inv;
      if !receivedAnswer && Trim(content) != "" && !cancelled {
        receivedAnswer := true;
        OnChunk(Final(content));
      }
    }
  }
}

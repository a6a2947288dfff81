/**
 The two-phase source-grounded review (streamSourceGroundedBlast of src/chat/blastRadiusSourceReview.ts): one
 synthesis call, at most one repair call, answer chunks withheld until the checks pass, and usage accounted on every
 path. The abort signal, the model and every callback answer as they like, depending on all that happened before.
 */
module BlastReview {
  import opened Wrappers

  datatype Usage = Usage(model: string, provider: string, inputTokens: int, outputTokens: int, cost: real)

  datatype CallResult = CallResult(content: string, finishReason: Option<string>, usage: Option<Usage>)

  datatype Reason = EmptyAnswer | LengthCutoff | UnfinishedFence | InvalidCitation

  datatype Assessment = Assessment(reasons: seq<Reason>, content: string)

  datatype Phase = Synthesis | Repair

  datatype PhaseKind = Start | Complete | Failed

  // What the outside sees, in order.
  datatype Observed =
    | PhaseEvent(phase: Phase, kind: PhaseKind)
    | ModelCall(phase: Phase)
    | CallDone(result: CallResult)
    | Repairing(reasons: seq<Reason>)
    | PartialUsage(usage: Usage)
    | Validated
    | Answer(text: string)

  type Log = seq<Observed>

  // stream: None when the call rejects. aborted: the signal at a check. throws: the callback just invoked throws.
  datatype World = World(
    stream: Log -> Option<CallResult>, assess: CallResult -> Assessment, enrich: string -> string,
    aborted: Log -> bool, throws: Log -> bool)

  datatype Outcome = Returned(content: string, usage: Option<Usage>) | Thrown

  // ---- What a log shows -------------------------------------------------------------------------------------------

  function Calls(log: Log): nat {
    if log == [] then 0 else Calls(log[..|log| - 1]) + if log[|log| - 1].ModelCall? then 1 else 0
  }

  function Completed(log: Log): seq<CallResult> {
    if log == [] then [] else Completed(log[..|log| - 1]) + if log[|log| - 1].CallDone? then [log[|log| - 1].result] else []
  }

  function Answers(log: Log): seq<string> {
    if log == [] then [] else Answers(log[..|log| - 1]) + if log[|log| - 1].Answer? then [log[|log| - 1].text] else []
  }

  function Reported(log: Log): seq<Usage> {
    if log == [] then [] else Reported(log[..|log| - 1]) + if log[|log| - 1].PartialUsage? then [log[|log| - 1].usage] else []
  }

  // The four projections of a log together.
  datatype Tally = Tally(calls: nat, completed: seq<CallResult>, answers: seq<string>, reported: seq<Usage>)

  function Shown(log: Log): Tally { Tally(Calls(log), Completed(log), Answers(log), Reported(log)) }

  /** The known usages of completed calls. */
  function Known(results: seq<CallResult>): seq<Usage> {
    if results == [] then []
    else
      var n := |results| - 1;
      Known(results[..n]) + if results[n].usage.Some? then [results[n].usage.value] else []
  }

  function SumInput(us: seq<Usage>): int { if us == [] then 0 else SumInput(us[..|us| - 1]) + us[|us| - 1].inputTokens }
  function SumOutput(us: seq<Usage>): int { if us == [] then 0 else SumOutput(us[..|us| - 1]) + us[|us| - 1].outputTokens }
  function SumCost(us: seq<Usage>): real { if us == [] then 0.0 else SumCost(us[..|us| - 1]) + us[|us| - 1].cost }

  /** The total of usages of one model and provider; none if a call's usage is missing or from elsewhere. */
  function Total(results: seq<CallResult>): Option<Usage> {
    if results != [] && results[0].usage.Some?
       && forall i :: 0 <= i < |results| ==>
            results[i].usage.Some? && results[i].usage.value.model == results[0].usage.value.model
            && results[i].usage.value.provider == results[0].usage.value.provider
    then
      var us := Known(results);
      Some(results[0].usage.value.(inputTokens := SumInput(us), outputTokens := SumOutput(us), cost := SumCost(us)))
    else None
  }

  // ---- What the review promises -----------------------------------------------------------------------------------

  /** A report that threw while known usages were still unreported. */
  ghost predicate CutShort(w: World, log: Log) {
    exists i :: 0 <= i < |log| && log[i].PartialUsage? && w.throws(log[..i + 1]) && |Reported(log[..i + 1])| < |Known(Completed(log))|
  }

  /** An answer was given at most once, as the enriched content of the last completed call, which passed all checks. */
  ghost predicate AnswerChecked(w: World, log: Log) {
    && |Answers(log)| <= 1
    && (Answers(log) != [] ==>
          && Completed(log) != []
          && var last := Completed(log)[|Completed(log)| - 1];
             w.assess(last).reasons == [] && Answers(log) == [w.enrich(w.assess(last).content)])
  }

  /**
   Every completed call's known usage is counted exactly once: in the returned total, or in order through the partial
   reports. The one exception is a report callback that throws before the last report.
   */
  ghost predicate UsageCounted(w: World, log: Log, o: Outcome) {
    var known := Known(Completed(log));
    if o.Returned? && o.usage.Some? then
      && Reported(log) == [] && |known| == |Completed(log)|
      && o.usage.value.inputTokens == SumInput(known) && o.usage.value.outputTokens == SumOutput(known) && o.usage.value.cost == SumCost(known)
      && forall u :: u in known ==> u.model == o.usage.value.model && u.provider == o.usage.value.provider
    else
      && Reported(log) <= known
      && (Reported(log) == known <==> !CutShort(w, log))
      && (o.Returned? ==> Reported(log) == known)
  }

  /** What the model answered, call by call. */
  function Responses(w: World, log: Log): seq<CallResult> {
    if log == [] then []
    else Responses(w, log[..|log| - 1]) + if log[|log| - 1].ModelCall? && w.stream(log).Some? then [w.stream(log).value] else []
  }

  /** Every call the model answered is recorded as completed, with its own result, and no other is. */
  ghost predicate Recorded(w: World, log: Log) { Completed(log) == Responses(w, log) }

  /** A second call is made only after the first answer failed its checks. */
  ghost predicate RepairNeeded(w: World, log: Log) {
    Calls(log) <= 2 && (Calls(log) == 2 ==> Completed(log) != [] && w.assess(Completed(log)[0]).reasons != [])
  }

  // ---- When the review answers --------------------------------------------------------------------------------------

  /** At the end of this log nothing stops the review: no callback throws, and no abort is seen where it is looked for. */
  ghost predicate Calm(w: World, log: Log) {
    if log == [] then !w.aborted(log)
    else
      var last := log[|log| - 1];
      && (!last.ModelCall? && !last.CallDone? ==> !w.throws(log))
      && (last.Repairing? || (last.PhaseEvent? && last.kind.Complete?) ==> !w.aborted(log))
  }

  /** Nothing stopped the review, from the start of the log to its end. */
  ghost predicate Smooth(w: World, log: Log) { forall i :: 0 <= i <= |log| ==> Calm(w, log[..i]) }

  /** Nor did an abort after the partial reports. */
  ghost predicate CalmAfterReports(w: World, log: Log) {
    forall i :: 0 < i <= |log| && log[i - 1].PartialUsage? && (i == |log| || !log[i].PartialUsage?) ==> !w.aborted(log[..i])
  }

  /** Every call was answered, and the last answer passed its checks. */
  ghost predicate Accepted(w: World, log: Log) {
    var done := Completed(log);
    done != [] && |done| == Calls(log) && w.assess(done[|done| - 1]).reasons == []
  }

  /** A call is made, and a second one exactly when the first was answered and the answer failed its checks. */
  ghost predicate CallsAsNeeded(w: World, log: Log) {
    && 1 <= Calls(log) <= 2
    && (Calls(log) == 2 <==> Completed(log) != [] && w.assess(Completed(log)[0]).reasons != [])
  }

  /** The usages of all calls are known and come from one model of one provider. */
  ghost predicate OneSource(results: seq<CallResult>) {
    && (forall i :: 0 <= i < |results| ==> results[i].usage.Some?)
    && forall i, j :: 0 <= i < |results| && 0 <= j < |results| && results[i].usage.Some? && results[j].usage.Some? ==>
         results[i].usage.value.model == results[j].usage.value.model && results[i].usage.value.provider == results[j].usage.value.provider
  }

  lemma TotalOfOneSource(results: seq<CallResult>)
    requires results != []
    ensures Total(results).Some? <==> OneSource(results)
  {
  }

  lemma SmoothSnoc(w: World, log: Log, e: Observed)
    ensures Smooth(w, log + [e]) <==> Smooth(w, log) && Calm(w, log + [e])
  {
    var t := log + [e];
    hide Calm;
    assert t[..|t|] == t;
    assert forall i :: 0 <= i <= |log| ==> t[..i] == log[..i];
  }

  lemma SmoothPrefix(w: World, log: Log, longer: Log)
    requires log <= longer && Smooth(w, longer)
    ensures Smooth(w, log)
  {
    hide Calm;
    assert forall i :: 0 <= i <= |log| ==> longer[..i] == log[..i];
  }

  lemma SmoothEnd(w: World, log: Log)
    requires Smooth(w, log)
    ensures Calm(w, log)
  {
    assert log[..|log|] == log;
  }

  /** The log grew by partial reports only. */
  ghost predicate GrownByReports(before: Log, log: Log) {
    before <= log && forall i :: |before| <= i < |log| ==> log[i].PartialUsage?
  }

  lemma OneMoreReport(w: World, before: Log, log: Log, u: Usage)
    requires GrownByReports(before, log)
    ensures GrownByReports(before, log + [PartialUsage(u)])
    ensures Calm(w, log + [PartialUsage(u)]) <==> !w.throws(log + [PartialUsage(u)])
  {
  }

  lemma ReportsThenCalm(w: World, before: Log, reported: Log, log: Log)
    requires Quiet(before) && GrownByReports(before, reported)
    requires reported <= log && forall i :: |reported| <= i < |log| ==> !log[i].PartialUsage?
    ensures CalmAfterReports(w, log) <==> (|reported| > |before| ==> !w.aborted(reported))
  {
    var n := |reported|;
    assert log[..n] == reported;
    assert forall i :: 0 <= i < n ==> log[i] == reported[i];
    if n > |before| { assert log[n - 1].PartialUsage?; }
  }

  // ---- Appending to a log -----------------------------------------------------------------------------------------

  function Counted(t: Tally, e: Observed): Tally {
    match e
    case ModelCall(_) => t.(calls := t.calls + 1)
    case CallDone(r) => t.(completed := t.completed + [r])
    case PartialUsage(u) => t.(reported := t.reported + [u])
    case Answer(text) => t.(answers := t.answers + [text])
    case _ => t
  }

  lemma Snoc(log: Log, e: Observed)
    ensures Shown(log + [e]) == Counted(Shown(log), e)
    ensures Quiet(log) && !e.PartialUsage? ==> Quiet(log + [e])
  {
    assert (log + [e])[..|log|] == log;
  }

  lemma RecordedSnoc(w: World, log: Log, e: Observed)
    requires !e.ModelCall? && !e.CallDone?
    ensures Recorded(w, log + [e]) <==> Recorded(w, log)
  {
    var t := log + [e];
    assert t[..|log|] == log && t[|log|] == e;
    assert Completed(t) == Completed(log) && Responses(w, t) == Responses(w, log);
  }

  lemma RecordedCall(w: World, log: Log, phase: Phase)
    requires Recorded(w, log)
    ensures var t := log + [ModelCall(phase)];
      if w.stream(t).Some? then Recorded(w, t + [CallDone(w.stream(t).value)]) else Recorded(w, t)
  {
    var t := log + [ModelCall(phase)];
    assert t[..|log|] == log;
    if w.stream(t).Some? {
      var u := t + [CallDone(w.stream(t).value)];
      assert u[..|t|] == t;
    }
  }

  /** A log without reports so far. */
  ghost predicate Quiet(log: Log) { forall i :: 0 <= i < |log| ==> !log[i].PartialUsage? }

  lemma {:induction false} QuietReports(log: Log)
    requires Quiet(log)
    ensures Reported(log) == []
  {
    if log != [] { QuietReports(log[..|log| - 1]); }
  }

  lemma {:induction false} KnownAll(results: seq<CallResult>)
    requires forall i :: 0 <= i < |results| ==> results[i].usage.Some?
    ensures |Known(results)| == |results| && forall i :: 0 <= i < |results| ==> Known(results)[i] == results[i].usage.value
  {
    if results != [] { KnownAll(results[..|results| - 1]); }
  }

  // ---- The review -------------------------------------------------------------------------------------------------

  /** One more event in the log. */
  method Observe(w: World, log: Log, e: Observed) returns (r: Log)
    ensures r == log + [e] && Shown(r) == Counted(Shown(log), e)
    ensures Quiet(log) && !e.PartialUsage? ==> Quiet(r)
    ensures Recorded(w, log) && !e.ModelCall? && !e.CallDone? ==> Recorded(w, r)
    ensures Smooth(w, r) <==> Smooth(w, log) && Calm(w, r)
  {
    Snoc(log, e);
    SmoothSnoc(w, log, e);
    if !e.ModelCall? && !e.CallDone? { RecordedSnoc(w, log, e); }
    r := log + [e];
  }

  method RunPhase(w: World, phase: Phase, log0: Log) returns (log: Log, result: Option<CallResult>)
    requires Quiet(log0) && Recorded(w, log0)
    requires (log0 == [] || log0[|log0| - 1].Repairing?) && (!w.aborted(log0) ==> Smooth(w, log0))
    ensures Quiet(log) && Recorded(w, log)
    ensures result.Some? <==> Smooth(w, log) && |Shown(log).completed| == |Shown(log0).completed| + 1
    ensures Smooth(w, log) ==> Shown(log).calls == Shown(log0).calls + 1
    ensures result.Some? ==> log != [] && log[|log| - 1] == PhaseEvent(phase, Complete)
    ensures var t, t0 := Shown(log), Shown(log0);
      && t.answers == t0.answers && t.calls <= t0.calls + 1
      && t0.completed <= t.completed && |t.completed| <= |t0.completed| + 1
      && (result.Some? ==> t.calls == t0.calls + 1 && t.completed == t0.completed + [result.value])
  {
    hide Shown, Quiet, Recorded, Smooth;
    log, result := log0, None;
    if w.aborted(log) {
      AbortedEnd(w, log);
      return;
    }
    log := Observe(w, log, PhaseEvent(phase, Start));
    if w.throws(log) { return; }
    RecordedCall(w, log, phase);
    log := Observe(w, log, ModelCall(phase));
    var r := w.stream(log);
    if r.None? {
      log := Observe(w, log, PhaseEvent(phase, Failed));
      return;
    }
    log := Observe(w, log, CallDone(r.value));
    log := Observe(w, log, PhaseEvent(phase, Complete));
    if w.throws(log) || w.aborted(log) { return; }
    result := r;
  }

  lemma AbortedEnd(w: World, log: Log)
    requires w.aborted(log) && (log == [] || log[|log| - 1].Repairing? || (log[|log| - 1].PhaseEvent? && log[|log| - 1].kind.Complete?))
    ensures !Smooth(w, log)
  {
    assert log[..|log|] == log;
  }

  /** No report so far has thrown. */
  ghost predicate Unbroken(w: World, log: Log) {
    forall j :: 0 <= j < |log| && log[j].PartialUsage? ==> !w.throws(log[..j + 1])
  }

  lemma UnbrokenSnoc(w: World, log: Log, e: Observed)
    requires Unbroken(w, log)
    ensures forall j :: 0 <= j < |log| && (log + [e])[j].PartialUsage? ==> !w.throws((log + [e])[..j + 1])
    ensures !w.throws(log + [e]) ==> Unbroken(w, log + [e])
  {
    var t := log + [e];
    forall j | 0 <= j < |log| ensures t[..j + 1] == log[..j + 1] && t[j] == log[j] {}
    assert t[..|log| + 1] == t;
  }

  /** reportPartialUsage: one report per known usage, until a callback throws. */
  method ReportPartialUsage(w: World, log0: Log, completed: seq<CallResult>) returns (log: Log, threw: bool)
    requires Quiet(log0) && completed == Completed(log0) && Recorded(w, log0)
    ensures Recorded(w, log) && GrownByReports(log0, log)
    ensures Shown(log) == Shown(log0).(reported := Reported(log))
    ensures Reported(log) <= Known(completed)
    ensures Reported(log) == Known(completed) <==> !CutShort(w, log)
    ensures !threw ==> Reported(log) == Known(completed)
    ensures Smooth(w, log) <==> Smooth(w, log0) && !threw
  {
    hide Shown, Unbroken, Quiet, Recorded, Smooth, Calm, GrownByReports, CutShort;
    log, threw := log0, false;
    ShownFields(log0);
    StartReports(w, log0);
    for i := 0 to |completed|
      invariant Shown(log) == Shown(log0).(reported := Known(completed[..i]))
      invariant Unbroken(w, log) && Recorded(w, log) && GrownByReports(log0, log)
      invariant Smooth(w, log) <==> Smooth(w, log0)
    {
      assert completed[..i + 1][..i] == completed[..i];
      if completed[i].usage.Some? {
        var u := completed[i].usage.value;
        UnbrokenSnoc(w, log, PartialUsage(u));
        OneMoreReport(w, log0, log, u);
        log := Observe(w, log, PartialUsage(u));
        if w.throws(log) {
          threw := true;
          ShownFields(log);
          CutExactly(w, log, completed, i);
          return;
        }
      }
    }
    assert completed[..|completed|] == completed;
    ShownFields(log);
    NotCutShort(w, log);
  }

  lemma StartReports(w: World, log: Log)
    requires Quiet(log)
    ensures Reported(log) == [] && Unbroken(w, log) && GrownByReports(log, log)
  {
    QuietReports(log);
  }

  lemma NotCutShort(w: World, log: Log)
    requires Unbroken(w, log)
    ensures !CutShort(w, log)
  {
  }

  lemma ShownFields(log: Log)
    ensures Shown(log) == Tally(Calls(log), Completed(log), Answers(log), Reported(log))
  {
  }

  lemma CutExactly(w: World, log: Log, completed: seq<CallResult>, i: nat)
    requires i < |completed| && completed == Completed(log) && Reported(log) == Known(completed[..i + 1])
    requires log != [] && log[|log| - 1].PartialUsage? && w.throws(log)
    requires forall j :: 0 <= j < |log| - 1 && log[j].PartialUsage? ==> !w.throws(log[..j + 1])
    ensures Reported(log) <= Known(completed) && (Reported(log) == Known(completed) <==> !CutShort(w, log))
  {
    KnownPrefix(completed, i + 1);
    var n := |log| - 1;
    assert log[..n + 1] == log;
    if |Reported(log)| < |Known(completed)| { assert CutShort(w, log); }
  }

  lemma {:induction false} KnownPrefix(results: seq<CallResult>, i: nat)
    requires i <= |results|
    ensures Known(results[..i]) <= Known(results)
    decreases |results| - i
  {
    if i < |results| {
      KnownPrefix(results, i + 1);
      assert results[..i + 1][..i] == results[..i];
    } else {
      assert results[..i] == results;
    }
  }

  /**
   The whole review. `Recorded` ties the log's completed calls to what the model answered, so the usage counted is
   that of every call it answered. In the body, `reported` says whether the partial reports were already made when it
   stopped; the catch clause makes them otherwise.
   */
  method StreamSourceGroundedBlast(w: World) returns (outcome: Outcome, log: Log)
    ensures Recorded(w, log) && RepairNeeded(w, log)
    ensures AnswerChecked(w, log)
    ensures outcome.Returned? ==> Answers(log) == [outcome.content]
    ensures UsageCounted(w, log, outcome)
    ensures outcome.Returned? <==> Smooth(w, log) && CalmAfterReports(w, log) && Accepted(w, log)
    ensures Smooth(w, log) ==> CallsAsNeeded(w, log)
    ensures outcome.Returned? ==> (outcome.usage.Some? <==> OneSource(Completed(log)))
  {
    var reported: bool;
    outcome, log, reported := ReviewBody(w);
    if outcome.Thrown? && !reported {
      hide Smooth, CalmAfterReports;
      var threw: bool;
      ghost var before := log;
      log, threw := ReportPartialUsage(w, log, Completed(log));
      assert Shown(log).answers == Shown(before).answers;
    }
  }

  /** The try block. */
  method ReviewBody(w: World) returns (outcome: Outcome, log: Log, reported: bool)
    ensures Recorded(w, log) && RepairNeeded(w, log) && AnswerChecked(w, log)
    ensures outcome.Returned? ==> Answers(log) == [outcome.content]
    ensures outcome.Thrown? && !reported ==> Quiet(log) && !(Smooth(w, log) && Accepted(w, log))
    ensures outcome.Returned? || reported ==> UsageCounted(w, log, outcome)
    ensures outcome.Returned? || reported ==>
      (outcome.Returned? <==> Smooth(w, log) && CalmAfterReports(w, log) && Accepted(w, log))
    ensures Smooth(w, log) ==> CallsAsNeeded(w, log)
    ensures outcome.Returned? ==> (outcome.usage.Some? <==> OneSource(Completed(log)))
  {
    hide Smooth, CalmAfterReports, OneSource, Recorded, Quiet, UsageCounted;
    var result: Option<CallResult>;
    log, result := AcceptedResult(w);
    outcome, reported := Thrown, false;
    if result.None? { return; }
    ghost var before := log;
    outcome, log, reported := Conclude(w, log, w.enrich(w.assess(result.value).content));
    SameTally(w, before, log);
    if Smooth(w, log) { SmoothPrefix(w, before, log); }
  }

  /** The calls: a synthesis, a repair if its answer fails the checks, and the last answer if it passes them. */
  method AcceptedResult(w: World) returns (log: Log, result: Option<CallResult>)
    ensures Recorded(w, log) && RepairNeeded(w, log) && Quiet(log) && Answers(log) == []
    ensures result.Some? <==> Smooth(w, log) && Accepted(w, log)
    ensures Smooth(w, log) ==> CallsAsNeeded(w, log)
    ensures result.Some? ==>
      && log != [] && log[|log| - 1].PhaseEvent? && log[|log| - 1].kind.Complete?
      && Completed(log) != [] && Completed(log)[|Completed(log)| - 1] == result.value
  {
    hide Smooth, Recorded;
    SmoothStart(w);
    log, result := RunPhase(w, Synthesis, []);
    if result.None? { return; }
    var first := result.value;
    if w.assess(first).reasons != [] {
      if w.aborted(log) {
        result := None;
        AbortedEnd(w, log);
        return;
      }
      log := Observe(w, log, Repairing(w.assess(first).reasons));
      if w.throws(log) {
        result := None;
        return;
      }
      log, result := RunPhase(w, Repair, log);
      if result.None? { return; }
    }
    if w.assess(result.value).reasons != [] { result := None; return; }
    if w.aborted(log) {
      result := None;
      AbortedEnd(w, log);
    }
  }

  /** What a log shows of its calls decides which were needed and accepted. */
  lemma SameTally(w: World, before: Log, log: Log)
    requires Calls(log) == Calls(before) && Completed(log) == Completed(before)
    ensures Accepted(w, log) <==> Accepted(w, before)
    ensures CallsAsNeeded(w, log) <==> CallsAsNeeded(w, before)
    ensures RepairNeeded(w, log) <==> RepairNeeded(w, before)
  {
  }

  lemma SmoothStart(w: World)
    ensures (!w.aborted([]) ==> Smooth(w, [])) && Recorded(w, [])
  {
  }

  /** The aggregation of usage: the total, or else the partial reports. */
  method SettleUsage(w: World, log0: Log) returns (log: Log, usage: Option<Usage>, threw: bool)
    requires Quiet(log0) && Recorded(w, log0) && Completed(log0) != []
    ensures Recorded(w, log) && GrownByReports(log0, log)
    ensures Shown(log) == Shown(log0).(reported := Reported(log))
    ensures usage.Some? <==> OneSource(Completed(log0))
    ensures usage.Some? ==> log == log0 && !threw
    ensures threw ==> UsageCounted(w, log, Thrown)
    ensures !threw ==> forall content :: UsageCounted(w, log, Returned(content, usage))
    ensures Smooth(w, log) <==> Smooth(w, log0) && !threw
  {
    hide Smooth, OneSource, Recorded;
    log, threw := log0, false;
    ShownFields(log0);
    TotalOfOneSource(Completed(log));
    usage := Total(Completed(log));
    if usage.None? {
      log, threw := ReportPartialUsage(w, log, Completed(log));
    } else {
      TotalCounts(Completed(log));
      QuietReports(log);
    }
  }

  /** From the aggregation of usage to the return. */
  method Conclude(w: World, log0: Log, content: string) returns (outcome: Outcome, log: Log, reported: bool)
    requires Smooth(w, log0) && log0 != [] && log0[|log0| - 1].PhaseEvent? && log0[|log0| - 1].kind.Complete?
    requires Quiet(log0) && Answers(log0) == [] && Completed(log0) != [] && Recorded(w, log0)
    ensures Recorded(w, log) && log0 <= log
    ensures Calls(log) == Calls(log0) && Completed(log) == Completed(log0)
    ensures Answers(log) == [] || Answers(log) == [content]
    ensures outcome.Returned? ==> Answers(log) == [content] && outcome.content == content
    ensures outcome.Returned? ==> (outcome.usage.Some? <==> OneSource(Completed(log)))
    ensures outcome.Thrown? && !reported ==> Quiet(log) && !Smooth(w, log)
    ensures outcome.Returned? || reported ==> UsageCounted(w, log, outcome)
    ensures outcome.Returned? <==> Smooth(w, log) && CalmAfterReports(w, log)
  {
    hide Smooth, CalmAfterReports, OneSource, Recorded, CutShort, Quiet, Calm;
    var usage: Option<Usage>;
    var threw: bool;
    log, usage, threw := SettleUsage(w, log0);
    outcome, reported := Thrown, usage.None?;
    ShownFields(log);
    ShownFields(log0);
    if threw { return; }
    ghost var settled := log;
    SmoothEnd(w, log0);
    var shown: bool;
    log, shown := Emit(w, log, content);
    ShownFields(log);
    assert UsageCounted(w, settled, Returned(content, usage));
    EndsCalm(w, log0, settled, log);
    if shown { outcome := Returned(content, usage); }
  }

  /** The check before the answer is the only one that can see an abort after the reports. */
  lemma EndsCalm(w: World, log0: Log, settled: Log, log: Log)
    requires log0 != [] && log0[|log0| - 1].PhaseEvent? && log0[|log0| - 1].kind.Complete? && Calm(w, log0)
    requires Quiet(log0) && GrownByReports(log0, settled)
    requires settled <= log && forall i :: |settled| <= i < |log| ==> !log[i].PartialUsage?
    ensures CalmAfterReports(w, log) <==> !w.aborted(settled)
  {
    ReportsThenCalm(w, log0, settled, log);
    if |settled| == |log0| { assert settled == log0; }
  }

  /** onValidated and onChunk, unless the signal fired or one of them throws. */
  method Emit(w: World, log0: Log, content: string) returns (log: Log, shown: bool)
    ensures Shown(log) == Shown(log0) || Shown(log) == Shown(log0).(answers := Shown(log0).answers + [content])
    ensures shown ==> Shown(log) == Shown(log0).(answers := Shown(log0).answers + [content])
    ensures CutShort(w, log) <==> CutShort(w, log0)
    ensures (Quiet(log0) ==> Quiet(log)) && (Recorded(w, log0) ==> Recorded(w, log))
    ensures log0 <= log && forall i :: |log0| <= i < |log| ==> !log[i].PartialUsage?
    ensures Smooth(w, log0) ==> (shown <==> !w.aborted(log0) && Smooth(w, log))
  {
    hide Shown, CutShort, Quiet, Recorded, Smooth;
    log, shown := log0, false;
    if w.aborted(log) { return; }
    SameCut(w, log, Validated);
    log := Observe(w, log, Validated);
    if w.throws(log) { return; }
    SameCut(w, log, Answer(content));
    log := Observe(w, log, Answer(content));
    shown := !w.throws(log);
  }

  /** An event that is neither a report nor a completed call does not change whether the reports were cut short. */
  lemma SameCut(w: World, log: Log, e: Observed)
    requires !e.PartialUsage? && !e.CallDone?
    ensures CutShort(w, log + [e]) <==> CutShort(w, log)
  {
    var t := log + [e];
    Snoc(log, e);
    forall i | 0 <= i < |log| ensures t[..i + 1] == log[..i + 1] && t[i] == log[i] {}
  }

  lemma TotalCounts(results: seq<CallResult>)
    requires Total(results).Some?
    ensures var known, t := Known(results), Total(results).value;
      && |known| == |results|
      && t.inputTokens == SumInput(known) && t.outputTokens == SumOutput(known) && t.cost == SumCost(known)
      && forall u :: u in known ==> u.model == t.model && u.provider == t.provider
  {
    KnownAll(results);
  }
}

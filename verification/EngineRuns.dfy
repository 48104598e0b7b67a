/**
 What holds over every run of the turn reducer, that is, after any sequence of inputs from
 the initial state, accepted and rejected ones alike.
 */
module EngineRuns {
  import opened Text
  import opened Order
  import opened Counting
  import opened Engine

  datatype Trace = Trace(state: State, effects: seq<Effect>)

  /** The state after the inputs and all effects emitted on the way. */
  function Run(s: State, inputs: seq<Input>): Trace {
    if inputs == [] then Trace(s, [])
    else
      var n := |inputs| - 1;
      var before := Run(s, inputs[..n]);
      var outcome := Reduce(before.state, inputs[n]);
      Trace(outcome.next, before.effects + outcome.effects)
  }

  /** A rejected input changes nothing and has no effect. */
  lemma RejectionChangesNothing(s: State, input: Input)
    ensures Reduce(s, input).rejection.Some? ==> Reduce(s, input).next == s && Reduce(s, input).effects == []
  {
  }

  // ------------------------------------------------------------------ the invariant

  function BufferedIds(buffered: seq<Buffered>): seq<string> {
    seq(|buffered|, i requires 0 <= i < |buffered| => buffered[i].callId)
  }

  predicate SlotsOk(s: State) {
    && 1 <= s.slotsUsed <= s.slotBudget
    && s.nextSequence == SaturatingAdd(s.slotsUsed, 1)
  }

  predicate TemplateOk(s: State) {
    s.template.Some? && s.template.value.retryDelays == RETRY_DELAYS
  }

  /** Each phase has exactly its own pending work. */
  predicate Invariant(s: State) {
    match s.phase
    case Idle => s == INITIAL
    case WaitingForModel =>
      && SlotsOk(s) && TemplateOk(s) && s.pendingRequest == Some(RequestId(s.slotsUsed))
      && s.pendingCalls == [] && s.buffered == [] && s.retryAttempts <= |RETRY_DELAYS|
    case WaitingForRetry =>
      && SlotsOk(s) && TemplateOk(s) && s.pendingRequest == Some(RequestId(s.slotsUsed))
      && s.pendingCalls == [] && s.buffered == [] && 1 <= s.retryAttempts <= |RETRY_DELAYS|
    case WaitingForTools =>
      && SlotsOk(s) && TemplateOk(s) && s.pendingRequest == None && s.retryAttempts == 0
      && Distinct(BufferedIds(s.buffered)) && |s.buffered| < |s.pendingCalls|
      && forall i :: 0 <= i < |s.buffered| ==> s.buffered[i].callId in s.pendingCalls
    case Finished =>
      && SlotsOk(s) && s.template == None && s.pendingRequest == None
      && s.pendingCalls == [] && s.buffered == [] && s.retryAttempts == 0
  }

  lemma FeedbackKeepsInvariant(s: State, id: string, result: seq<Content>, isError: bool)
    requires Invariant(s)
    ensures Invariant(ToolFeedback(s, id, result, isError).next)
  {
    if s.phase == WaitingForTools && id in s.pendingCalls && !IsBuffered(s.buffered, id) {
      var buffered := s.buffered + [Buffered(id, result, isError)];
      var ids := BufferedIds(buffered);
      assert forall i :: 0 <= i < |s.buffered| ==> ids[i] == BufferedIds(s.buffered)[i] == s.buffered[i].callId;
      assert Distinct(ids);
    }
  }

  lemma StepKeepsInvariant(s: State, input: Input)
    requires Invariant(s)
    ensures Invariant(Reduce(s, input).next)
  {
    match input
    case ToolCompleted(id, result) => FeedbackKeepsInvariant(s, id, result, false);
    case ToolFailed(id, error, result) => FeedbackKeepsInvariant(s, id, if result == [] then [Words(error)] else result, true);
    case _ =>
  }

  lemma {:induction false} RunKeepsInvariant(s: State, inputs: seq<Input>)
    requires Invariant(s)
    ensures Invariant(Run(s, inputs).state)
  {
    if inputs != [] {
      var n := |inputs| - 1;
      RunKeepsInvariant(s, inputs[..n]);
      StepKeepsInvariant(Run(s, inputs[..n]).state, inputs[n]);
    }
  }

  // ------------------------------------------------------------------ counting effects

  /** How many effects of each kind were emitted. */
  datatype Tally = Tally(busy: nat, released: nat, finished: nat, requests: nat, retries: nat)

  /** What is counted about an effect. */
  datatype Kind = Began | Released | Ended | Asked | Scheduled | Silent

  function KindOf(e: Effect): Kind {
    match e
    case RequestModel(_) => Asked
    case ScheduleRetry(_, _) => Scheduled
    case ExecuteTool(_) => Silent
    case EmitEvent(event) =>
      match event
      case BusyChanged(busy) => if busy then Began else Released
      case Notice(_) => Silent
      case TurnFinished(_) => Ended
  }

  function Kinds(effects: seq<Effect>): seq<Kind> {
    seq(|effects|, i requires 0 <= i < |effects| => KindOf(effects[i]))
  }

  function CountKinds(m: multiset<Kind>): Tally {
    Tally(m[Began], m[Released], m[Ended], m[Asked], m[Scheduled])
  }

  function TallyOf(effects: seq<Effect>): Tally {
    CountKinds(multiset(Kinds(effects)))
  }

  const NOTHING := Tally(0, 0, 0, 0, 0)

  function Plus(a: Tally, b: Tally): Tally {
    Tally(a.busy + b.busy, a.released + b.released, a.finished + b.finished, a.requests + b.requests, a.retries + b.retries)
  }

  lemma KindsAppend(a: seq<Effect>, b: seq<Effect>)
    ensures multiset(Kinds(a + b)) == multiset(Kinds(a)) + multiset(Kinds(b))
  {
    assert Kinds(a + b) == Kinds(a) + Kinds(b);
  }

  lemma TallyAppend(a: seq<Effect>, b: seq<Effect>)
    ensures TallyOf(a + b) == Plus(TallyOf(a), TallyOf(b))
  {
    KindsAppend(a, b);
  }

  predicate IsRequest(e: Effect) {
    e.RequestModel?
  }

  lemma {:induction false} RequestsAreCounted(effects: seq<Effect>)
    ensures TallyOf(effects).requests == Count(IsRequest, effects)
  {
    if effects != [] {
      var n := |effects| - 1;
      RequestsAreCounted(effects[..n]);
      assert effects == effects[..n] + [effects[n]];
      TallyAppend(effects[..n], [effects[n]]);
      assert Kinds([effects[n]]) == [KindOf(effects[n])];
    }
  }

  lemma TallyOfCalls(effects: seq<Effect>)
    requires forall i :: 0 <= i < |effects| ==> effects[i].ExecuteTool?
    ensures TallyOf(effects) == NOTHING
  {
    var kinds := Kinds(effects);
    assert forall i :: 0 <= i < |kinds| ==> kinds[i] == Silent;
  }

  lemma TallyOfOpening(effects: seq<Effect>)
    requires |effects| == 3
    requires KindOf(effects[0]) == Began && KindOf(effects[1]) == Silent && KindOf(effects[2]) == Asked
    ensures TallyOf(effects) == Tally(1, 0, 0, 1, 0)
  {
    assert Kinds(effects) == [Began, Silent, Asked];
  }

  lemma TallyOfOne(effects: seq<Effect>)
    requires |effects| == 1 && (KindOf(effects[0]) == Asked || KindOf(effects[0]) == Scheduled)
    ensures TallyOf(effects) == Tally(0, 0, 0, Bit(KindOf(effects[0]) == Asked), Bit(KindOf(effects[0]) == Scheduled))
  {
    assert Kinds(effects) == [KindOf(effects[0])];
  }

  lemma TallyOfFinish(notice: Option<string>, stop: StopReason)
    ensures TallyOf(FinishEvents(notice, stop)) == Tally(0, 1, 1, 0, 0)
  {
    var kinds := Kinds(FinishEvents(notice, stop));
    if notice.Some? {
      assert kinds == [Released, Silent, Ended];
    } else {
      assert kinds == [Released, Ended];
    }
  }

  /** What one input adds to the counts, by the phases before and after it. */
  predicate Adds(d: Tally, before: Phase, after: Phase, accepted: bool) {
    d == Tally(
      Bit(before == Idle && after != Idle),
      Bit(before != Finished && after == Finished),
      Bit(before != Finished && after == Finished),
      Bit(accepted && after == WaitingForModel),
      Bit(accepted && after == WaitingForRetry))
  }

  predicate TallyOk(s: State, o: Outcome) {
    && Adds(TallyOf(o.effects), s.phase, o.next.phase, o.rejection.None?)
    && forall e :: e in o.effects && e.RequestModel? ==>
         e.request.requestId == RequestId(o.next.slotsUsed) && e.request.messages == o.next.messages
  }

  lemma SubmitTally(s: State, messages: seq<Message>, settings: Settings, slotBudget: U32)
    requires Invariant(s)
    ensures TallyOk(s, Submit(s, messages, settings, slotBudget))
  {
    var o := Submit(s, messages, settings, slotBudget);
    if o.rejection.None? {
      TallyOfOpening(o.effects);
    }
  }

  lemma CompleteTally(s: State, id: string, output: seq<Content>, stop: StopReason)
    requires Invariant(s)
    ensures TallyOk(s, CompleteModel(s, id, output, stop))
  {
    if CompleteModel(s, id, output, stop).rejection.None? {
      if stop == ToolUseStop {
        TallyOfCalls(CallEffects(ExtractCalls(output)));
      } else {
        TallyOfFinish(None, stop);
      }
    }
  }

  lemma FailTally(s: State, id: string, failure: Failure)
    requires Invariant(s)
    ensures TallyOk(s, FailModel(s, id, failure))
  {
    var o := FailModel(s, id, failure);
    if o.next.phase == WaitingForRetry && o.rejection.None? {
      TallyOfOne(o.effects);
    } else {
      TallyOfFinish(Some(failure.message), Stop);
    }
  }

  lemma RetryTally(s: State, id: string)
    requires Invariant(s)
    ensures TallyOk(s, Retry(s, id))
  {
    var o := Retry(s, id);
    if o.rejection.None? {
      TallyOfOne(o.effects);
    }
  }

  lemma FeedbackTally(s: State, id: string, result: seq<Content>, isError: bool)
    requires Invariant(s)
    ensures TallyOk(s, ToolFeedback(s, id, result, isError))
  {
    var o := ToolFeedback(s, id, result, isError);
    if o.next.phase == WaitingForModel {
      if o.rejection.None? {
        TallyOfOne(o.effects);
      }
    } else {
      TallyOfFinish(Some(BUDGET_NOTICE), Stop);
    }
  }

  lemma CancelTally(s: State, reason: string)
    requires Invariant(s)
    ensures TallyOk(s, Cancel(s, reason))
  {
    TallyOfFinish(Some(reason), Stop);
  }

  lemma StepTally(s: State, input: Input)
    requires Invariant(s)
    ensures TallyOk(s, Reduce(s, input))
  {
    match input
    case SubmitUserPrompt(messages, settings, slotBudget) => SubmitTally(s, messages, settings, slotBudget);
    case ModelCompleted(id, output, stop) => CompleteTally(s, id, output, stop);
    case ModelFailed(id, failure) => FailTally(s, id, failure);
    case RetryReady(id) => RetryTally(s, id);
    case ToolCompleted(id, result) => FeedbackTally(s, id, result, false);
    case ToolFailed(id, error, result) => FeedbackTally(s, id, if result == [] then [Words(error)] else result, true);
    case CancelTurn(reason) => CancelTally(s, reason);
  }

  // ------------------------------------------------------------------ budget and events over a run

  /** The counters of a state that bound what it may have emitted. */
  datatype Counters = Counters(phase: Phase, slots: nat, attempts: nat)

  function CountersOf(s: State): Counters {
    Counters(s.phase, s.slotsUsed, s.retryAttempts)
  }

  /** At most two retries for each request slot that is used up, and the attempts so far for the current one. */
  function RetryBound(c: Counters): int {
    if c.phase == WaitingForModel || c.phase == WaitingForRetry then 2 * (c.slots - 1) + c.attempts else 2 * c.slots
  }

  /** The books balance: what was emitted so far is accounted for by the counters. */
  predicate Balanced(c: Counters, y: Tally) {
    && (c.phase == Idle ==> y == Tally(0, 0, 0, 0, 0) && c.slots == 0)
    && (c.phase != Idle ==>
          && y.busy == 1 && y.finished == Bit(c.phase == Finished) && y.released == Bit(c.phase == Finished)
          && y.retries <= RetryBound(c)
          && (if c.phase == Finished then y.requests <= c.slots + y.retries <= y.requests + 1
              else y.requests + Bit(c.phase == WaitingForRetry) == c.slots + y.retries))
  }

  ghost predicate TraceOk(s: State, y: Tally) {
    Invariant(s) && Balanced(CountersOf(s), y)
  }

  /** How an input moves the slot and retry counters. */
  predicate CountersOk(s: State, o: Outcome) {
    && (o.rejection.Some? ==> o.next == s)
    && (o.rejection.None? ==>
          && s.phase != Finished && o.next.phase != Idle
          && o.next.slotsUsed == s.slotsUsed + Bit(o.next.phase == WaitingForModel && s.phase != WaitingForRetry)
          && (o.next.phase == WaitingForRetry ==> s.phase == WaitingForModel && o.next.retryAttempts == s.retryAttempts + 1)
          && (o.next.phase == WaitingForModel ==> o.next.retryAttempts == if s.phase == WaitingForRetry then s.retryAttempts else 0)
          && (o.next.phase == WaitingForModel ==> s.phase == Idle || s.phase == WaitingForRetry || s.phase == WaitingForTools)
          && (o.next.phase == WaitingForTools ==> s.phase == WaitingForModel || s.phase == WaitingForTools)
          && (o.next.phase == Finished ==> s.phase != Idle))
  }

  lemma FailCounters(s: State, id: string, failure: Failure)
    requires Invariant(s)
    ensures CountersOk(s, FailModel(s, id, failure))
  {
  }

  lemma FeedbackCounters(s: State, id: string, result: seq<Content>, isError: bool)
    requires Invariant(s)
    ensures CountersOk(s, ToolFeedback(s, id, result, isError))
  {
  }

  lemma StepCounters(s: State, input: Input)
    requires Invariant(s)
    ensures CountersOk(s, Reduce(s, input))
  {
    match input
    case ModelFailed(id, failure) => FailCounters(s, id, failure);
    case ToolCompleted(id, result) => FeedbackCounters(s, id, result, false);
    case ToolFailed(id, error, result) => FeedbackCounters(s, id, if result == [] then [Words(error)] else result, true);
    case _ =>
  }

  lemma StepBalances(b: Counters, c: Counters, y: Tally, d: Tally)
    requires Balanced(b, y) && b.phase != Finished && c.phase != Idle && b.attempts <= 2
    requires d == Tally(Bit(b.phase == Idle), Bit(c.phase == Finished), Bit(c.phase == Finished),
                        Bit(c.phase == WaitingForModel), Bit(c.phase == WaitingForRetry))
    requires c.slots == b.slots + Bit(c.phase == WaitingForModel && b.phase != WaitingForRetry)
    requires c.phase == WaitingForRetry ==> b.phase == WaitingForModel && c.attempts == b.attempts + 1
    requires c.phase == WaitingForModel ==>
      (b.phase == WaitingForRetry && c.attempts == b.attempts) || ((b.phase == Idle || b.phase == WaitingForTools) && c.attempts == 0)
    requires c.phase == WaitingForTools ==> b.phase == WaitingForModel || b.phase == WaitingForTools
    requires c.phase == Finished ==> b.phase != Idle
    ensures Balanced(c, Plus(y, d))
  {
  }

  lemma OutcomeBalances(s: State, y: Tally, o: Outcome, d: Tally)
    requires Balanced(CountersOf(s), y) && s.retryAttempts <= 2 && CountersOk(s, o)
    requires Adds(d, s.phase, o.next.phase, o.rejection.None?)
    ensures Balanced(CountersOf(o.next), Plus(y, d))
  {
    if o.rejection.None? {
      StepBalances(CountersOf(s), CountersOf(o.next), y, d);
    }
  }

  lemma StepKeepsTrace(s: State, y: Tally, input: Input)
    requires TraceOk(s, y)
    ensures TraceOk(Reduce(s, input).next, Plus(y, TallyOf(Reduce(s, input).effects)))
  {
    StepKeepsInvariant(s, input);
    StepTally(s, input);
    StepCounters(s, input);
    OutcomeBalances(s, y, Reduce(s, input), TallyOf(Reduce(s, input).effects));
  }

  lemma {:induction false} RunKeepsTrace(inputs: seq<Input>)
    ensures TraceOk(Run(INITIAL, inputs).state, TallyOf(Run(INITIAL, inputs).effects))
  {
    if inputs != [] {
      var n := |inputs| - 1;
      var before := Run(INITIAL, inputs[..n]);
      RunKeepsTrace(inputs[..n]);
      StepKeepsTrace(before.state, TallyOf(before.effects), inputs[n]);
      TallyAppend(before.effects, Reduce(before.state, inputs[n]).effects);
    }
  }

  /**
   Over any run the turn asks the model at most three times per slot of its budget, turns
   busy at most once, and reports its end exactly when it is finished, exactly once.
   */
  lemma TurnStaysInBudget(inputs: seq<Input>)
    ensures
      var t := Run(INITIAL, inputs);
      var y := TallyOf(t.effects);
      && t.state.slotsUsed <= t.state.slotBudget
      && y.retries <= 2 * t.state.slotsUsed
      && y.requests <= t.state.slotsUsed + y.retries <= 3 * t.state.slotBudget
      && y.busy == Bit(t.state.phase != Idle)
      && y.finished == y.released == Bit(t.state.phase == Finished)
  {
    RunKeepsTrace(inputs);
  }

  /** A finished turn accepts nothing any more. */
  lemma {:induction false} FinishedIsFinal(s: State, inputs: seq<Input>)
    requires s.phase == Finished
    ensures Run(s, inputs) == Trace(s, [])
  {
    if inputs != [] {
      FinishedIsFinal(s, inputs[..|inputs| - 1]);
    }
  }

  lemma StepKeepsMessages(s: State, input: Input)
    requires s.phase != Idle
    ensures s.messages <= Reduce(s, input).next.messages && Reduce(s, input).next.phase != Idle
  {
  }

  /** The conversation only grows, whatever happens. */
  lemma {:induction false} MessagesOnlyGrow(s: State, inputs: seq<Input>)
    requires s.phase != Idle
    ensures s.messages <= Run(s, inputs).state.messages && Run(s, inputs).state.phase != Idle
  {
    if inputs != [] {
      var n := |inputs| - 1;
      MessagesOnlyGrow(s, inputs[..n]);
      StepKeepsMessages(Run(s, inputs[..n]).state, inputs[n]);
    }
  }

  // ------------------------------------------------------------------ the submission behind a turn

  /** Nothing is emitted before a submission is accepted. */
  lemma {:induction false} IdleIsSilent(inputs: seq<Input>)
    requires Run(INITIAL, inputs).state.phase == Idle
    ensures Run(INITIAL, inputs) == Trace(INITIAL, [])
  {
    if inputs != [] {
      var n := |inputs| - 1;
      var before := Run(INITIAL, inputs[..n]).state;
      RunKeepsInvariant(INITIAL, inputs[..n]);
      RejectionChangesNothing(before, inputs[n]);
      StepCounters(before, inputs[n]);
      IdleIsSilent(inputs[..n]);
    }
  }

  /** Every request among the effects has these settings and begins with these messages. */
  predicate Repeats(effects: seq<Effect>, settings: Settings, messages: seq<Message>) {
    forall e :: e in effects && e.RequestModel? ==> e.request.settings == settings && messages <= e.request.messages
  }

  lemma StepRepeats(s: State, input: Input, settings: Settings, messages: seq<Message>)
    requires s.phase != Idle && messages <= s.messages
    requires s.template.Some? ==> s.template.value.settings == settings
    ensures
      var o := Reduce(s, input);
      && Repeats(o.effects, settings, messages) && messages <= o.next.messages && o.next.slotBudget == s.slotBudget
      && (o.next.template.Some? ==> o.next.template.value.settings == settings)
  {
    StepKeepsMessages(s, input);
    match input
    case ToolCompleted(id, result) => FeedbackRepeats(s, id, result, false, settings, messages);
    case ToolFailed(id, error, result) =>
      FeedbackRepeats(s, id, if result == [] then [Words(error)] else result, true, settings, messages);
    case _ =>
  }

  lemma FeedbackRepeats(s: State, id: string, result: seq<Content>, isError: bool, settings: Settings, messages: seq<Message>)
    requires messages <= s.messages && (s.template.Some? ==> s.template.value.settings == settings)
    ensures
      var o := ToolFeedback(s, id, result, isError);
      && Repeats(o.effects, settings, messages) && o.next.slotBudget == s.slotBudget
      && (o.next.template.Some? ==> o.next.template.value.settings == settings)
  {
  }

  /**
   A turn belongs to one accepted submission: its budget is that of the submission, and every
   request sent in it, retries and follow-ups included, repeats the settings of the submission
   and begins with its messages.
   */
  lemma {:induction false} TurnBelongsToItsSubmission(inputs: seq<Input>) returns (k: nat)
    requires Run(INITIAL, inputs).state.phase != Idle
    ensures k < |inputs| && inputs[k].SubmitUserPrompt? && Run(INITIAL, inputs[..k]).state.phase == Idle
    ensures
      var t := Run(INITIAL, inputs);
      && t.state.slotBudget == inputs[k].slotBudget >= 1 && inputs[k].messages <= t.state.messages
      && (t.state.template.Some? ==> t.state.template.value.settings == inputs[k].settings)
      && Repeats(t.effects, inputs[k].settings, inputs[k].messages)
  {
    var n := |inputs| - 1;
    var before := Run(INITIAL, inputs[..n]);
    RunKeepsInvariant(INITIAL, inputs[..n]);
    if before.state.phase == Idle {
      k := n;
      IdleIsSilent(inputs[..n]);
    } else {
      k := TurnBelongsToItsSubmission(inputs[..n]);
      assert inputs[..n][..k] == inputs[..k];
      StepRepeats(before.state, inputs[n], inputs[k].settings, inputs[k].messages);
    }
  }

  // ------------------------------------------------------------------ request identifiers

  lemma RequestIdInjective(m: nat, n: nat)
    requires RequestId(m) == RequestId(n)
    ensures m == n
  {
    var prefix := REQUEST_PREFIX + "-";
    assert RequestId(m)[|prefix|..] == Decimal(m) && RequestId(n)[|prefix|..] == Decimal(n);
    DecimalInjective(m, n);
  }

  predicate IsRequestFor(id: string, e: Effect) {
    e.RequestModel? && e.request.requestId == id
  }

  /** How often the request with this number was sent to the model. */
  function Sent(k: nat, effects: seq<Effect>): nat {
    Claims(IsRequestFor, RequestId(k), effects)
  }

  lemma SentAppend(k: nat, a: seq<Effect>, b: seq<Effect>)
    ensures Sent(k, a + b) == Sent(k, a) + Sent(k, b)
  {
    CountAppend(r => IsRequestFor(RequestId(k), r), a, b);
    ClaimsCount(IsRequestFor, RequestId(k), r => IsRequestFor(RequestId(k), r), a + b);
    ClaimsCount(IsRequestFor, RequestId(k), r => IsRequestFor(RequestId(k), r), a);
    ClaimsCount(IsRequestFor, RequestId(k), r => IsRequestFor(RequestId(k), r), b);
  }

  lemma SentInStep(k: nat, m: nat, effects: seq<Effect>)
    requires forall e :: e in effects && e.RequestModel? ==> e.request.requestId == RequestId(m)
    ensures Sent(k, effects) == if k == m then Count(IsRequest, effects) else 0
  {
    var p := r => IsRequestFor(RequestId(k), r);
    ClaimsCount(IsRequestFor, RequestId(k), p, effects);
    if k == m {
      CountSame(p, IsRequest, effects);
    } else {
      forall i | 0 <= i < |effects| ensures !p(effects[i]) {
        if effects[i].RequestModel? && RequestId(k) == RequestId(m) {
          RequestIdInjective(k, m);
        }
      }
      CountNone(p, effects);
    }
  }

  /** How often request `k` has been sent, by where the turn stands. */
  predicate SentOk(s: State, k: nat, sent: nat) {
    if k == 0 || k > s.slotsUsed then sent == 0
    else if k == s.slotsUsed && s.phase == WaitingForModel then sent == 1 + s.retryAttempts
    else if k == s.slotsUsed && s.phase == WaitingForRetry then sent == s.retryAttempts
    else 1 <= sent <= 1 + |RETRY_DELAYS|
  }

  /**
   Over any run request number `k` is sent once and retried at most twice if its slot was
   used, and never otherwise; different numbers have different identifiers.
   */
  lemma {:induction false} RequestsAreFreshAndBounded(inputs: seq<Input>, k: nat)
    ensures SentOk(Run(INITIAL, inputs).state, k, Sent(k, Run(INITIAL, inputs).effects))
    ensures forall j :: RequestId(j) == RequestId(k) ==> j == k
  {
    forall j | RequestId(j) == RequestId(k) ensures j == k {
      RequestIdInjective(j, k);
    }
    if inputs != [] {
      var n := |inputs| - 1;
      var before := Run(INITIAL, inputs[..n]);
      RequestsAreFreshAndBounded(inputs[..n], k);
      RunKeepsInvariant(INITIAL, inputs[..n]);
      var o := Reduce(before.state, inputs[n]);
      StepTally(before.state, inputs[n]);
      StepCounters(before.state, inputs[n]);
      SentInStep(k, o.next.slotsUsed, o.effects);
      SentAppend(k, before.effects, o.effects);
      RequestsAreCounted(o.effects);
    }
  }
}

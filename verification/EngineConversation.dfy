/**
 What a turn says and does, read off its inputs alone: which inputs are accepted, what each
 accepted input makes the host do, and what the conversation holds after any run.
 */
module EngineConversation {
  import opened Text
  import opened Order
  import opened Engine
  import opened EngineRuns
  import opened EngineTools

  // ------------------------------------------------------------------ the tool calls of an output

  predicate IsCall(c: Content) {
    c.ToolUse?
  }

  function Calls(output: seq<Content>): seq<Content> {
    Filter(IsCall, output)
  }

  function IdOf(c: Content): string {
    if c.ToolUse? then c.id else ""
  }

  function CallOf(c: Content): ToolCall {
    if c.ToolUse? then ToolCall(c.id, c.name, c.input) else ToolCall("", "", Json.Null)
  }

  lemma {:induction false} ExtractedCalls(output: seq<Content>)
    ensures ExtractCalls(output) == Map(CallOf, Calls(output))
  {
    if output != [] {
      ExtractedCalls(output[1..]);
      MapAppend(CallOf, if IsCall(output[0]) then [output[0]] else [], Calls(output[1..]));
      assert Calls(output) == (if IsCall(output[0]) then [output[0]] else []) + Calls(output[1..]);
    }
  }

  lemma CallsAreToolUses(output: seq<Content>)
    ensures CallIds(ExtractCalls(output)) == Map(IdOf, Calls(output))
    ensures CallEffects(ExtractCalls(output)) == Map(c => ExecuteTool(CallOf(c)), Calls(output))
  {
    ExtractedCalls(output);
    forall i | 0 <= i < |Calls(output)| ensures Calls(output)[i].ToolUse? {
      FilterMember(IsCall, output, Calls(output)[i]);
    }
  }

  // ------------------------------------------------------------------ which inputs are accepted

  /** The inputs that a state in order accepts. */
  predicate Welcome(s: State, input: Input) {
    match input
    case SubmitUserPrompt(_, _, slotBudget) => s.phase == Idle && slotBudget >= 1
    case ModelCompleted(id, output, stop) =>
      s.phase == WaitingForModel && s.pendingRequest == Some(id) && (stop == ToolUseStop ==> Calls(output) != [])
    case ModelFailed(id, _) => s.phase == WaitingForModel && s.pendingRequest == Some(id)
    case RetryReady(id) => s.phase == WaitingForRetry && s.pendingRequest == Some(id)
    case ToolCompleted(id, _) => s.phase == WaitingForTools && id in s.pendingCalls && id !in BufferedIds(s.buffered)
    case ToolFailed(id, _, _) => s.phase == WaitingForTools && id in s.pendingCalls && id !in BufferedIds(s.buffered)
    case CancelTurn(_) => s.phase != Idle && s.phase != Finished
  }

  /** Why an input that is not welcome is refused. */
  function Reason(s: State, input: Input): Rejection {
    match input
    case SubmitUserPrompt(_, _, _) => if s.phase == Idle then InvalidBudget else Busy
    case ModelCompleted(id, _, _) =>
      if s.phase != WaitingForModel then InvalidPhase
      else if s.pendingRequest == Some(id) then MissingToolCall else CorrelationMismatch
    case ModelFailed(id, _) =>
      if (s.phase == WaitingForModel || s.phase == WaitingForRetry) && s.pendingRequest != Some(id) then CorrelationMismatch else InvalidPhase
    case RetryReady(_) => if s.phase == WaitingForRetry then CorrelationMismatch else InvalidPhase
    case ToolCompleted(_, _) => if s.phase == WaitingForTools then CorrelationMismatch else InvalidPhase
    case ToolFailed(_, _, _) => if s.phase == WaitingForTools then CorrelationMismatch else InvalidPhase
    case CancelTurn(_) => InvalidPhase
  }

  lemma BufferedIsListed(buffered: seq<Buffered>, id: string)
    ensures IsBuffered(buffered, id) <==> id in BufferedIds(buffered)
  {
    if IsBuffered(buffered, id) {
      var i :| 0 <= i < |buffered| && buffered[i].callId == id;
      assert BufferedIds(buffered)[i] == id;
    }
  }

  /** With the last result in, every call has one. */
  lemma LastResultAnswersAll(s: State, b: Buffered)
    requires Invariant(s) && s.phase == WaitingForTools && b.callId in s.pendingCalls && b.callId !in BufferedIds(s.buffered)
    ensures Distinct(BufferedIds(s.buffered + [b])) && AnswersCalls(s.buffered + [b], s.pendingCalls)
    ensures |s.buffered| + 1 >= |s.pendingCalls| ==>
      |s.buffered| + 1 == |s.pendingCalls| && forall k :: 0 <= k < |s.pendingCalls| ==> IsBuffered(s.buffered + [b], s.pendingCalls[k])
  {
    var grown := s.buffered + [b];
    assert BufferedIds(grown) == BufferedIds(s.buffered) + [b.callId];
    if |grown| == |s.pendingCalls| {
      AllAnswered(grown, s.pendingCalls);
    }
  }

  lemma FeedbackIsWelcome(s: State, id: string, result: seq<Content>, isError: bool)
    requires Invariant(s)
    ensures
      var o := ToolFeedback(s, id, result, isError);
      var welcome := s.phase == WaitingForTools && id in s.pendingCalls && id !in BufferedIds(s.buffered);
      && (o.rejection.None? <==> welcome)
      && (!welcome ==> o.rejection == Some(if s.phase == WaitingForTools then CorrelationMismatch else InvalidPhase))
  {
    BufferedIsListed(s.buffered, id);
    if s.phase == WaitingForTools && id in s.pendingCalls && id !in BufferedIds(s.buffered) {
      var b := Buffered(id, result, isError);
      LastResultAnswersAll(s, b);
      if |s.buffered| + 1 == |s.pendingCalls| {
        ToolMessagesInCallOrder(s.pendingCalls, s.buffered + [b]);
      }
    }
  }

  /** Exactly the welcome inputs are accepted, and any other is refused for its reason. */
  lemma AcceptanceIsExact(s: State, input: Input)
    requires Invariant(s)
    ensures Reduce(s, input).rejection == if Welcome(s, input) then None else Some(Reason(s, input))
  {
    match input
    case ModelCompleted(id, output, stop) => CallsAreToolUses(output);
    case ToolCompleted(id, result) => FeedbackIsWelcome(s, id, result, false);
    case ToolFailed(id, error, result) => FeedbackIsWelcome(s, id, if result == [] then [Words(error)] else result, true);
    case _ =>
  }

  // ------------------------------------------------------------------ what an accepted input makes the host do

  /** A tool-use completion hands out exactly the tool calls of its output, in order. */
  lemma ToolUseHandsOutCalls(s: State, id: string, output: seq<Content>)
    requires Invariant(s) && Welcome(s, ModelCompleted(id, output, ToolUseStop))
    ensures
      var o := Reduce(s, ModelCompleted(id, output, ToolUseStop));
      && o.effects == Map(c => ExecuteTool(CallOf(c)), Calls(output))
      && o.next.phase == WaitingForTools && o.next.pendingCalls == Map(IdOf, Calls(output)) && o.next.buffered == []
  {
    CallsAreToolUses(output);
  }

  /** How a turn ends that ends with this input: the notice, the stop reason and the failure that is reported. */
  datatype Ending = Ending(notice: Option<string>, stop: StopReason, failure: Option<Failure>)

  function EndingOf(input: Input): Ending {
    match input
    case ModelCompleted(_, _, stop) => Ending(None, stop, None)
    case ModelFailed(_, failure) => Ending(Some(failure.message), Stop, Some(failure))
    case CancelTurn(reason) => Ending(Some(reason), Stop, None)
    case _ => Ending(Some("engine model request slot budget exhausted"), Stop, None)
  }

  function Notices(notice: Option<string>): seq<Effect> {
    if notice.Some? then [EmitEvent(Notice(notice.value))] else []
  }

  /**
   Whatever ends a turn, the host is told that it is free, then why if there is a notice, and
   last that the turn is finished: with the model's own stop reason if the model ended it.
   */
  lemma EndingIsReported(s: State, input: Input)
    requires Invariant(s) && s.phase != Finished && Reduce(s, input).next.phase == Finished
    ensures
      var o, e := Reduce(s, input), EndingOf(input);
      && o.effects == [EmitEvent(BusyChanged(false))] + Notices(e.notice) + [EmitEvent(TurnFinished(e.stop))]
      && o.terminalFailure == e.failure
  {
  }

  /** The delays before the first and the second retry of a request. */
  function DelayBefore(attempt: nat): Option<nat> {
    if attempt == 0 then Some(1) else if attempt == 1 then Some(4) else None
  }

  /** A failed request is retried exactly when the failure allows it and a delay is left, after that delay; otherwise the turn ends. */
  lemma FailureIsRetriedOrEnds(s: State, id: string, failure: Failure)
    requires Invariant(s) && Welcome(s, ModelFailed(id, failure))
    ensures
      var o, delay := Reduce(s, ModelFailed(id, failure)), DelayBefore(s.retryAttempts);
      && (o.next.phase == WaitingForRetry <==> failure.retryable && delay.Some?)
      && (o.next.phase == WaitingForRetry ==>
            o.effects == [ScheduleRetry(id, delay.value)] && o.terminalFailure == None
            && o.next.pendingRequest == Some(id) && o.next.retryAttempts == s.retryAttempts + 1)
      && (o.next.phase != WaitingForRetry ==> o.next.phase == Finished)
  {
  }

  /** The settings of the turn, once it has begun. */
  function SettingsOf(s: State): Option<Settings> {
    if s.template.Some? then Some(s.template.value.settings) else None
  }

  /** When an accepted input leads to waiting for the model, exactly one request is sent, last, with the whole conversation. */
  lemma ModelIsAsked(s: State, input: Input)
    requires Invariant(s) && Welcome(s, input) && Reduce(s, input).next.phase == WaitingForModel
    ensures
      var o := Reduce(s, input);
      && o.next.pendingRequest.Some? && SettingsOf(o.next).Some?
      && o.effects ==
         (if input.SubmitUserPrompt? then [EmitEvent(BusyChanged(true)), EmitEvent(Notice("engine queued initial model request"))] else [])
         + [RequestModel(ModelRequest(o.next.pendingRequest.value, o.next.messages, SettingsOf(o.next).value))]
      && (input.SubmitUserPrompt? ==> SettingsOf(o.next) == Some(input.settings) && o.next.slotBudget == input.slotBudget)
      && (!input.SubmitUserPrompt? ==> SettingsOf(o.next) == SettingsOf(s))
  {
    AcceptanceIsExact(s, input);
    var r := RequestModel(BuildRequest(Reduce(s, input).next.template.value, Reduce(s, input).next.messages, Reduce(s, input).next.pendingRequest.value));
    if input.SubmitUserPrompt? {
      assert Reduce(s, input).effects == [EmitEvent(BusyChanged(true)), EmitEvent(Notice("engine queued initial model request")), r];
    } else {
      assert Reduce(s, input).effects == [r];
      assert [] + [r] == [r];
    }
  }

  /** A new request takes the next number, a retry keeps its own, and no number ever goes back. */
  lemma RequestsAreNumbered(s: State, input: Input)
    requires Invariant(s) && Welcome(s, input) && Reduce(s, input).next.phase == WaitingForModel
    ensures
      var next := Reduce(s, input).next;
      next.pendingRequest == if input.RetryReady? then s.pendingRequest else Some("model-request-" + Decimal(s.nextSequence))
  {
    AcceptanceIsExact(s, input);
    assert REQUEST_PREFIX + "-" == "model-request-";
  }

  lemma NumbersNeverGoBack(s: State, input: Input)
    ensures Reduce(s, input).next.nextSequence >= s.nextSequence
  {
  }

  /** A tool result that is not the last one makes the host do nothing. */
  lemma EarlyResultIsSilent(s: State, input: Input)
    requires Invariant(s) && (input.ToolCompleted? || input.ToolFailed?) && Reduce(s, input).next.phase == WaitingForTools
    ensures Reduce(s, input).effects == []
  {
  }

  /** With the last tool result the model is asked again exactly when a slot of the budget is left. */
  lemma LastResultAsksOrEnds(s: State, input: Input)
    requires Invariant(s) && Welcome(s, input) && (input.ToolCompleted? || input.ToolFailed?)
    ensures
      var next := Reduce(s, input).next;
      if |s.buffered| + 1 < |s.pendingCalls| then next.phase == WaitingForTools
      else next.phase == if s.slotsUsed < s.slotBudget then WaitingForModel else Finished
  {
    AcceptanceIsExact(s, input);
  }

  // ------------------------------------------------------------------ the conversation

  /** The conversation so far, with the calls it waits for and the answers that have come in. */
  datatype Talk = Talk(messages: seq<Message>, calls: seq<string>, answers: map<string, Message>)

  function Answered(t: Talk, id: string, content: seq<Content>, error: Option<bool>): Talk {
    var answers := t.answers[id := Message(Tool, [ToolResult(id, content, error)])];
    if |answers| < |t.calls| then t.(answers := answers)
    else Talk(t.messages + Map(c => if c in answers then answers[c] else Message(Tool, []), t.calls), [], map[])
  }

  /** What an accepted input adds to the conversation. */
  function Said(t: Talk, input: Input): Talk {
    match input
    case SubmitUserPrompt(messages, _, _) => Talk(messages, [], map[])
    case ModelCompleted(_, output, stop) =>
      Talk(t.messages + [Message(Assistant, output)], if stop == ToolUseStop then Map(IdOf, Calls(output)) else [], map[])
    case ToolCompleted(id, result) => Answered(t, id, result, None)
    case ToolFailed(id, error, result) => Answered(t, id, if result == [] then [Words(error)] else result, Some(true))
    case _ => t
  }

  /** The conversation that the accepted ones among the inputs make up. */
  function TalkOf(inputs: seq<Input>): Talk {
    if inputs == [] then Talk([], [], map[])
    else
      var n := |inputs| - 1;
      var before := TalkOf(inputs[..n]);
      if Reduce(Run(INITIAL, inputs[..n]).state, inputs[n]).rejection.None? then Said(before, inputs[n]) else before
  }

  /** The answers on record are the buffered results as messages. */
  ghost predicate AnswersMatch(buffered: seq<Buffered>, answers: map<string, Message>) {
    && (forall id :: id in answers <==> id in BufferedIds(buffered))
    && forall i :: 0 <= i < |buffered| ==> buffered[i].callId in answers && answers[buffered[i].callId] == AnswerOf(buffered[i])
  }

  function AnswerOf(b: Buffered): Message {
    Message(Tool, [ToolResult(b.callId, b.content, if b.isError then Some(true) else None)])
  }

  ghost predicate TalkFits(s: State, t: Talk) {
    && s.messages == t.messages
    && (s.phase == WaitingForTools ==> t.calls == s.pendingCalls && AnswersMatch(s.buffered, t.answers))
  }

  lemma AnswersGrow(buffered: seq<Buffered>, answers: map<string, Message>, b: Buffered)
    requires AnswersMatch(buffered, answers) && b.callId !in BufferedIds(buffered)
    ensures AnswersMatch(buffered + [b], answers[b.callId := AnswerOf(b)])
  {
    assert BufferedIds(buffered + [b]) == BufferedIds(buffered) + [b.callId];
    forall i | 0 <= i < |buffered| ensures buffered[i].callId != b.callId {
      assert BufferedIds(buffered)[i] == buffered[i].callId;
    }
  }

  lemma AnswerCount(buffered: seq<Buffered>, answers: map<string, Message>)
    requires AnswersMatch(buffered, answers) && Distinct(BufferedIds(buffered))
    ensures |answers| == |buffered|
  {
    SetSize(BufferedIds(buffered));
    assert answers.Keys == AsSet(BufferedIds(buffered));
  }

  lemma AnswersInCallOrder(calls: seq<string>, buffered: seq<Buffered>, answers: map<string, Message>)
    requires AnswersMatch(buffered, answers) && forall k :: 0 <= k < |calls| ==> IsBuffered(buffered, calls[k])
    ensures ToolMessages(calls, buffered).Some?
    ensures ToolMessages(calls, buffered).value == Map(c => if c in answers then answers[c] else Message(Tool, []), calls)
  {
    ToolMessagesInCallOrder(calls, buffered);
    forall k | 0 <= k < |calls|
      ensures calls[k] in answers && ToolMessages(calls, buffered).value[k] == answers[calls[k]]
    {
      var found := FindResult(buffered, calls[k]).value;
      var i :| 0 <= i < |buffered| && buffered[i] == found;
      assert answers[buffered[i].callId] == AnswerOf(buffered[i]);
    }
  }

  lemma AnswerFits(s: State, t: Talk, id: string, content: seq<Content>, isError: bool)
    requires Invariant(s) && TalkFits(s, t) && s.phase == WaitingForTools
    requires id in s.pendingCalls && id !in BufferedIds(s.buffered)
    ensures TalkFits(ToolFeedback(s, id, content, isError).next, Answered(t, id, content, if isError then Some(true) else None))
  {
    var b := Buffered(id, content, isError);
    var answers := t.answers[id := AnswerOf(b)];
    BufferedIsListed(s.buffered, id);
    LastResultAnswersAll(s, b);
    AnswersGrow(s.buffered, t.answers, b);
    AnswerCount(s.buffered + [b], answers);
    if |s.buffered| + 1 == |s.pendingCalls| {
      AnswersInCallOrder(s.pendingCalls, s.buffered + [b], answers);
    }
  }

  lemma SaidFits(s: State, t: Talk, input: Input)
    requires Invariant(s) && TalkFits(s, t) && Welcome(s, input)
    ensures TalkFits(Reduce(s, input).next, Said(t, input))
  {
    match input
    case ModelCompleted(id, output, stop) => CallsAreToolUses(output);
    case ToolCompleted(id, result) => AnswerFits(s, t, id, result, false);
    case ToolFailed(id, error, result) => AnswerFits(s, t, id, if result == [] then [Words(error)] else result, true);
    case _ =>
  }

  lemma {:induction false} TalkIsKept(inputs: seq<Input>)
    ensures TalkFits(Run(INITIAL, inputs).state, TalkOf(inputs))
  {
    if inputs != [] {
      var n := |inputs| - 1;
      var s := Run(INITIAL, inputs[..n]).state;
      TalkIsKept(inputs[..n]);
      RunKeepsInvariant(INITIAL, inputs[..n]);
      AcceptanceIsExact(s, inputs[n]);
      RejectionChangesNothing(s, inputs[n]);
      if Welcome(s, inputs[n]) {
        SaidFits(s, TalkOf(inputs[..n]), inputs[n]);
      }
    }
  }

  /**
   After any inputs the conversation is what the accepted ones say: the submitted messages,
   each model output as it came, and after each tool phase one message per call, in the order
   of the calls, with the content and error flag that was delivered for it.
   */
  lemma ConversationIsWhatWasSaid(inputs: seq<Input>)
    ensures Run(INITIAL, inputs).state.messages == TalkOf(inputs).messages
  {
    TalkIsKept(inputs);
  }
}

/**
 The turn reducer of the embeddable engine (crate clankers-engine): one accepted prompt
 becomes a sequence of model requests, retries and tool calls until the turn is finished.
 `Reduce` is the crate's `reduce`.
 */
module Engine {
  import opened Text
  import Json

  const U32_MAX: nat := 0xFFFF_FFFF

  type U32 = n: nat | n <= U32_MAX

  function SaturatingAdd(a: U32, b: U32): U32 {
    if a + b > U32_MAX then U32_MAX else a + b
  }

  datatype Phase = Idle | WaitingForModel | WaitingForRetry | WaitingForTools | Finished

  datatype Content =
    | Words(text: string)
    | Image(source: string)
    | Thinking(thinking: string, signature: string)
    | ToolUse(id: string, name: string, input: Json.Value)
    | ToolResult(toolUseId: string, content: seq<Content>, isError: Option<bool>)

  datatype Role = User | Assistant | Tool
  datatype Message = Message(role: Role, content: seq<Content>)
  datatype StopReason = Stop | ToolUseStop | MaxTokens

  /** What every model request of a turn repeats from the submission. */
  datatype Settings = Settings(
    model: string, systemPrompt: string, maxTokens: Option<nat>, temperature: Option<real>,
    thinking: Option<Json.Value>, tools: seq<Json.Value>, noCache: bool, cacheTtl: Option<string>, sessionId: string)

  datatype Template = Template(settings: Settings, retryDelays: seq<nat>)
  datatype ModelRequest = ModelRequest(requestId: string, messages: seq<Message>, settings: Settings)
  datatype ToolCall = ToolCall(callId: string, toolName: string, input: Json.Value)
  datatype Buffered = Buffered(callId: string, content: seq<Content>, isError: bool)
  datatype Failure = Failure(message: string, status: Option<nat>, retryable: bool)

  datatype Event = BusyChanged(busy: bool) | Notice(message: string) | TurnFinished(stopReason: StopReason)

  datatype Effect =
    | RequestModel(request: ModelRequest)
    | ExecuteTool(call: ToolCall)
    | ScheduleRetry(requestId: string, delay: nat)
    | EmitEvent(event: Event)

  datatype Input =
    | SubmitUserPrompt(messages: seq<Message>, settings: Settings, slotBudget: U32)
    | ModelCompleted(requestId: string, output: seq<Content>, stopReason: StopReason)
    | ModelFailed(requestId: string, failure: Failure)
    | RetryReady(requestId: string)
    | ToolCompleted(callId: string, result: seq<Content>)
    | ToolFailed(callId: string, error: string, result: seq<Content>)
    | CancelTurn(reason: string)

  datatype Rejection = Busy | CorrelationMismatch | InvalidPhase | MissingToolCall | InvalidBudget

  datatype State = State(
    contractVersion: U32, phase: Phase, messages: seq<Message>, template: Option<Template>,
    pendingRequest: Option<string>, nextSequence: U32, pendingCalls: seq<string>, buffered: seq<Buffered>,
    retryAttempts: U32, slotBudget: U32, slotsUsed: U32)

  datatype Outcome = Outcome(next: State, effects: seq<Effect>, rejection: Option<Rejection>, terminalFailure: Option<Failure>)

  const CONTRACT_VERSION: U32 := 1
  const REQUEST_PREFIX := "model-request"
  const RETRY_DELAYS: seq<nat> := [1, 4]
  const MIN_SLOT_BUDGET: U32 := 1
  const SLOT_COST: U32 := 1
  const SUBMIT_NOTICE := "engine queued initial model request"
  const BUDGET_NOTICE := "engine model request slot budget exhausted"

  const INITIAL := State(CONTRACT_VERSION, Idle, [], None, None, 1, [], [], 0, 0, 0)

  // ------------------------------------------------------------------ the reducer

  function RequestId(sequence: nat): string {
    REQUEST_PREFIX + "-" + Decimal(sequence)
  }

  function Rejected(s: State, why: Rejection): Outcome {
    Outcome(s, [], Some(why), None)
  }

  function Accepted(next: State, effects: seq<Effect>): Outcome {
    Outcome(next, effects, None, None)
  }

  function TerminalState(s: State, messages: seq<Message>): State {
    s.(phase := Finished, messages := messages, template := None, pendingRequest := None,
       pendingCalls := [], buffered := [], retryAttempts := 0)
  }

  function FinishEvents(notice: Option<string>, stop: StopReason): seq<Effect> {
    [EmitEvent(BusyChanged(false))]
    + (if notice.Some? then [EmitEvent(Notice(notice.value))] else [])
    + [EmitEvent(TurnFinished(stop))]
  }

  function BuildRequest(t: Template, messages: seq<Message>, id: string): ModelRequest {
    ModelRequest(id, messages, t.settings)
  }

  function Submit(s: State, messages: seq<Message>, settings: Settings, slotBudget: U32): Outcome {
    if s.phase != Idle || s.pendingRequest.Some? then Rejected(s, Busy)
    else if slotBudget < MIN_SLOT_BUDGET then Rejected(s, InvalidBudget)
    else
      var template := Template(settings, RETRY_DELAYS);
      var id := RequestId(s.nextSequence);
      Accepted(
        State(s.contractVersion, WaitingForModel, messages, Some(template), Some(id),
              SaturatingAdd(s.nextSequence, 1), [], [], 0, slotBudget, SLOT_COST),
        [EmitEvent(BusyChanged(true)), EmitEvent(Notice(SUBMIT_NOTICE)), RequestModel(BuildRequest(template, messages, id))])
  }

  /** The tool calls of a model output, in order. */
  function ExtractCalls(output: seq<Content>): seq<ToolCall> {
    if output == [] then []
    else
      (if output[0].ToolUse? then [ToolCall(output[0].id, output[0].name, output[0].input)] else [])
      + ExtractCalls(output[1..])
  }

  function CallIds(calls: seq<ToolCall>): seq<string> {
    seq(|calls|, i requires 0 <= i < |calls| => calls[i].callId)
  }

  function CallEffects(calls: seq<ToolCall>): seq<Effect> {
    seq(|calls|, i requires 0 <= i < |calls| => ExecuteTool(calls[i]))
  }

  function CompleteModel(s: State, id: string, output: seq<Content>, stop: StopReason): Outcome {
    if s.phase != WaitingForModel || s.pendingRequest.None? then Rejected(s, InvalidPhase)
    else if s.pendingRequest.value != id then Rejected(s, CorrelationMismatch)
    else
      var messages := s.messages + [Message(Assistant, output)];
      if stop == ToolUseStop then
        var calls := ExtractCalls(output);
        if calls == [] then Rejected(s, MissingToolCall)
        else
          Accepted(
            s.(phase := WaitingForTools, messages := messages, pendingRequest := None,
               pendingCalls := CallIds(calls), buffered := [], retryAttempts := 0),
            CallEffects(calls))
      else Accepted(TerminalState(s, messages), FinishEvents(None, stop))
  }

  function RetryDelay(s: State): Option<nat> {
    if s.template.Some? && s.retryAttempts < |s.template.value.retryDelays|
    then Some(s.template.value.retryDelays[s.retryAttempts]) else None
  }

  function FailModel(s: State, id: string, failure: Failure): Outcome {
    if s.phase == WaitingForRetry then
      if s.pendingRequest.None? || s.pendingRequest.value == id then Rejected(s, InvalidPhase)
      else Rejected(s, CorrelationMismatch)
    else if s.phase != WaitingForModel || s.pendingRequest.None? then Rejected(s, InvalidPhase)
    else if s.pendingRequest.value != id then Rejected(s, CorrelationMismatch)
    else if failure.retryable && RetryDelay(s).Some? then
      Accepted(
        s.(phase := WaitingForRetry, pendingRequest := Some(id), pendingCalls := [], buffered := [],
           retryAttempts := SaturatingAdd(s.retryAttempts, 1)),
        [ScheduleRetry(id, RetryDelay(s).value)])
    else
      Outcome(TerminalState(s, s.messages), FinishEvents(Some(failure.message), Stop), None, Some(failure))
  }

  function Retry(s: State, id: string): Outcome {
    if s.phase != WaitingForRetry || s.pendingRequest.None? then Rejected(s, InvalidPhase)
    else if s.pendingRequest.value != id then Rejected(s, CorrelationMismatch)
    else if s.template.None? then Rejected(s, InvalidPhase)
    else
      Accepted(
        s.(phase := WaitingForModel, pendingRequest := Some(id), pendingCalls := [], buffered := []),
        [RequestModel(BuildRequest(s.template.value, s.messages, id))])
  }

  predicate IsBuffered(buffered: seq<Buffered>, id: string) {
    exists i :: 0 <= i < |buffered| && buffered[i].callId == id
  }

  /** The first buffered result of a call. */
  function FindResult(buffered: seq<Buffered>, id: string): (r: Option<Buffered>)
    ensures r.Some? <==> IsBuffered(buffered, id)
    ensures r.Some? ==> r.value.callId == id && r.value in buffered
  {
    if buffered == [] then None
    else if buffered[0].callId == id then
      assert IsBuffered(buffered, id);
      Some(buffered[0])
    else
      assert forall i :: 0 < i < |buffered| ==> buffered[i] == buffered[1..][i - 1];
      FindResult(buffered[1..], id)
  }

  function ToolMessage(b: Buffered): Message {
    Message(Tool, [ToolResult(b.callId, b.content, if b.isError then Some(true) else None)])
  }

  /** The results as messages in the order of the calls; nothing when a call has no result. */
  function ToolMessages(calls: seq<string>, buffered: seq<Buffered>): Option<seq<Message>> {
    if calls == [] then Some([])
    else
      var n := |calls| - 1;
      var before := ToolMessages(calls[..n], buffered);
      var last := FindResult(buffered, calls[n]);
      if before.None? || last.None? then None else Some(before.value + [ToolMessage(last.value)])
  }

  method AppendToolMessages(messages: seq<Message>, calls: seq<string>, buffered: seq<Buffered>) returns (r: Option<seq<Message>>)
    ensures r == var tools := ToolMessages(calls, buffered); if tools.None? then None else Some(messages + tools.value)
  {
    var next := messages;
    for i := 0 to |calls|
      invariant ToolMessages(calls[..i], buffered).Some? && next == messages + ToolMessages(calls[..i], buffered).value
    {
      assert calls[..i + 1][..i] == calls[..i];
      var result := FindResult(buffered, calls[i]);
      if result.None? {
        NoMessagesWithoutResult(calls, buffered, i);
        return None;
      }
      next := next + [ToolMessage(result.value)];
    }
    assert calls[..|calls|] == calls;
    return Some(next);
  }

  lemma {:induction false} NoMessagesWithoutResult(calls: seq<string>, buffered: seq<Buffered>, i: nat)
    requires i < |calls| && FindResult(buffered, calls[i]).None?
    ensures ToolMessages(calls, buffered).None?
  {
    if i < |calls| - 1 {
      NoMessagesWithoutResult(calls[..|calls| - 1], buffered, i);
    }
  }

  function ToolFeedback(s: State, id: string, result: seq<Content>, isError: bool): Outcome {
    if s.phase != WaitingForTools then Rejected(s, InvalidPhase)
    else if id !in s.pendingCalls || IsBuffered(s.buffered, id) then Rejected(s, CorrelationMismatch)
    else
      var buffered := s.buffered + [Buffered(id, result, isError)];
      if |buffered| < |s.pendingCalls| then
        Accepted(s.(pendingRequest := None, buffered := buffered, retryAttempts := 0), [])
      else if s.template.None? then Rejected(s, InvalidPhase)
      else
        var tools := ToolMessages(s.pendingCalls, buffered);
        if tools.None? then Rejected(s, CorrelationMismatch)
        else
          var messages := s.messages + tools.value;
          if s.slotsUsed >= s.slotBudget then
            Accepted(TerminalState(s, messages), FinishEvents(Some(BUDGET_NOTICE), Stop))
          else
            var next := RequestId(s.nextSequence);
            Accepted(
              s.(phase := WaitingForModel, messages := messages, pendingRequest := Some(next),
                 nextSequence := SaturatingAdd(s.nextSequence, 1), pendingCalls := [], buffered := [],
                 retryAttempts := 0, slotsUsed := SaturatingAdd(s.slotsUsed, SLOT_COST)),
              [RequestModel(BuildRequest(s.template.value, messages, next))])
  }

  function Cancel(s: State, reason: string): Outcome {
    if s.phase == Idle || s.phase == Finished then Rejected(s, InvalidPhase)
    else Accepted(TerminalState(s, s.messages), FinishEvents(Some(reason), Stop))
  }

  function Reduce(s: State, input: Input): Outcome {
    match input
    case SubmitUserPrompt(messages, settings, slotBudget) => Submit(s, messages, settings, slotBudget)
    case ModelCompleted(id, output, stop) => CompleteModel(s, id, output, stop)
    case ModelFailed(id, failure) => FailModel(s, id, failure)
    case RetryReady(id) => Retry(s, id)
    case ToolCompleted(id, result) => ToolFeedback(s, id, result, false)
    case ToolFailed(id, error, result) => ToolFeedback(s, id, if result == [] then [Words(error)] else result, true)
    case CancelTurn(reason) => Cancel(s, reason)
  }
}

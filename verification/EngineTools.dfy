/**
 The tool phase of a turn: results may arrive in any order and are put back in call order,
 and the phase can end without cancelling exactly when the model used distinct call ids.
 */
module EngineTools {
  import opened Text
  import opened Order
  import opened Engine
  import opened EngineRuns

  // ------------------------------------------------------------------ counting distinct ids

  function AsSet(ids: seq<string>): set<string> {
    set i | 0 <= i < |ids| :: ids[i]
  }

  lemma {:induction false} SetSize(ids: seq<string>)
    ensures |AsSet(ids)| <= |ids|
    ensures |AsSet(ids)| == |ids| <==> Distinct(ids)
  {
    if ids != [] {
      var n := |ids| - 1;
      var rest := ids[..n];
      SetSize(rest);
      assert AsSet(ids) == AsSet(rest) + {ids[n]} by {
        assert forall i :: 0 <= i < n ==> rest[i] == ids[i];
      }
      if ids[n] in AsSet(rest) {
        assert AsSet(ids) == AsSet(rest);
        var i :| 0 <= i < n && rest[i] == ids[n];
        assert ids[i] == ids[n] && !Distinct(ids);
      } else {
        forall i | 0 <= i < n ensures ids[i] != ids[n] {
          assert rest[i] in AsSet(rest);
        }
        assert Distinct(rest) <==> Distinct(ids);
      }
    }
  }

  /** The ids of buffered results are among the pending calls. */
  predicate AnswersCalls(buffered: seq<Buffered>, calls: seq<string>) {
    forall i :: 0 <= i < |buffered| ==> buffered[i].callId in calls
  }

  lemma BufferedFits(buffered: seq<Buffered>, calls: seq<string>)
    requires Distinct(BufferedIds(buffered)) && AnswersCalls(buffered, calls)
    ensures AsSet(BufferedIds(buffered)) <= AsSet(calls)
    ensures |buffered| == |AsSet(BufferedIds(buffered))| <= |AsSet(calls)| <= |calls|
  {
    var ids := BufferedIds(buffered);
    SetSize(ids);
    SetSize(calls);
    forall id | id in AsSet(ids) ensures id in AsSet(calls) {
      var i :| 0 <= i < |ids| && ids[i] == id;
      assert buffered[i].callId in calls;
    }
    SubsetSize(AsSet(ids), AsSet(calls));
  }

  lemma SubsetSize(a: set<string>, b: set<string>)
    requires a <= b
    ensures |a| <= |b| && (|a| == |b| ==> a == b)
  {
    assert b == a + (b - a);
  }

  /** As many distinct results as distinct calls: every call has its result. */
  lemma AllAnswered(buffered: seq<Buffered>, calls: seq<string>)
    requires Distinct(BufferedIds(buffered)) && AnswersCalls(buffered, calls) && |buffered| == |calls|
    ensures forall k :: 0 <= k < |calls| ==> IsBuffered(buffered, calls[k])
  {
    BufferedFits(buffered, calls);
    SubsetSize(AsSet(BufferedIds(buffered)), AsSet(calls));
    forall k | 0 <= k < |calls| ensures IsBuffered(buffered, calls[k]) {
      assert calls[k] in AsSet(calls);
      var i :| 0 <= i < |buffered| && BufferedIds(buffered)[i] == calls[k];
      assert buffered[i].callId == calls[k];
    }
  }

  lemma SomeCallUnanswered(buffered: seq<Buffered>, calls: seq<string>) returns (id: string)
    requires Distinct(calls) && |buffered| < |calls|
    ensures id in calls && !IsBuffered(buffered, id)
  {
    var ids := BufferedIds(buffered);
    SetSize(ids);
    SetSize(calls);
    if AsSet(calls) <= AsSet(ids) {
      SubsetSize(AsSet(calls), AsSet(ids));
    }
    id :| id in AsSet(calls) && id !in AsSet(ids);
    forall i | 0 <= i < |buffered| ensures buffered[i].callId != id {
      assert ids[i] in AsSet(ids);
    }
  }

  // ------------------------------------------------------------------ the order of the results

  lemma {:induction false} ToolMessagesInCallOrder(calls: seq<string>, buffered: seq<Buffered>)
    requires forall k :: 0 <= k < |calls| ==> IsBuffered(buffered, calls[k])
    ensures ToolMessages(calls, buffered).Some? && |ToolMessages(calls, buffered).value| == |calls|
    ensures forall k :: 0 <= k < |calls| ==>
      ToolMessages(calls, buffered).value[k] == ToolMessage(FindResult(buffered, calls[k]).value)
  {
    if calls != [] {
      ToolMessagesInCallOrder(calls[..|calls| - 1], buffered);
    }
  }

  lemma FindIsUnique(buffered: seq<Buffered>, b: Buffered)
    requires Distinct(BufferedIds(buffered)) && b in buffered
    ensures FindResult(buffered, b.callId) == Some(b)
  {
    var i :| 0 <= i < |buffered| && buffered[i] == b;
    assert IsBuffered(buffered, b.callId);
    var found := FindResult(buffered, b.callId).value;
    var j :| 0 <= j < |buffered| && buffered[j] == found;
    assert BufferedIds(buffered)[i] == BufferedIds(buffered)[j];
  }

  /** The results delivered one by one, as `ToolCompleted` and `ToolFailed` inputs deliver them. */
  function Deliver(s: State, results: seq<Buffered>): Trace {
    if results == [] then Trace(s, [])
    else
      var n := |results| - 1;
      var before := Deliver(s, results[..n]);
      var outcome := ToolFeedback(before.state, results[n].callId, results[n].content, results[n].isError);
      Trace(outcome.next, before.effects + outcome.effects)
  }

  /** One result for every pending call, none of them twice. */
  predicate Answers(s: State, results: seq<Buffered>) {
    && |results| == |s.pendingCalls| && Distinct(BufferedIds(results)) && AnswersCalls(results, s.pendingCalls)
  }

  /** A result that is neither the last nor a repeated one is only buffered. */
  lemma BufferedOnly(s: State, prefix: seq<Buffered>, next: Buffered)
    requires Invariant(s) && s.phase == WaitingForTools && |prefix| + 1 < |s.pendingCalls|
    requires next.callId in s.pendingCalls && forall j :: 0 <= j < |prefix| ==> prefix[j].callId != next.callId
    ensures
      var o := ToolFeedback(s.(buffered := prefix), next.callId, next.content, next.isError);
      o.next == s.(buffered := prefix + [next]) && o.effects == []
  {
    assert Buffered(next.callId, next.content, next.isError) == next;
  }

  lemma {:induction false} PartialDelivery(s: State, results: seq<Buffered>, i: nat)
    requires Invariant(s) && s.phase == WaitingForTools && s.buffered == [] && Answers(s, results) && i < |results|
    ensures Deliver(s, results[..i]) == Trace(s.(buffered := results[..i]), [])
  {
    if i > 0 {
      var prefix, next := results[..i - 1], results[i - 1];
      PartialDelivery(s, results, i - 1);
      assert results[..i] == prefix + [next];
      assert next.callId in s.pendingCalls;
      forall j | 0 <= j < |prefix| ensures prefix[j].callId != next.callId {
        assert BufferedIds(results)[j] != BufferedIds(results)[i - 1];
      }
      BufferedOnly(s, prefix, next);
      DeliverSnoc(s, prefix, next);
    }
  }

  /** What delivering everything amounts to: the results in call order, and the next request or the end of the budget. */
  function AfterTools(s: State, messages: seq<Message>): Trace
    requires s.template.Some?
  {
    if s.slotsUsed >= s.slotBudget then
      Trace(TerminalState(s, messages), FinishEvents(Some(BUDGET_NOTICE), Stop))
    else
      var id := RequestId(s.nextSequence);
      Trace(
        s.(phase := WaitingForModel, messages := messages, pendingRequest := Some(id),
           nextSequence := SaturatingAdd(s.nextSequence, 1), pendingCalls := [], buffered := [],
           retryAttempts := 0, slotsUsed := SaturatingAdd(s.slotsUsed, SLOT_COST)),
        [RequestModel(BuildRequest(s.template.value, messages, id))])
  }

  lemma LastDelivery(s: State, prefix: seq<Buffered>, last: Buffered)
    requires Invariant(s) && s.phase == WaitingForTools && Answers(s, prefix + [last])
    ensures ToolMessages(s.pendingCalls, prefix + [last]).Some?
    ensures
      var o := ToolFeedback(s.(buffered := prefix), last.callId, last.content, last.isError);
      var messages := s.messages + ToolMessages(s.pendingCalls, prefix + [last]).value;
      Trace(o.next, o.effects) == AfterTools(s, messages)
  {
    var results := prefix + [last];
    assert results[|prefix|].callId in s.pendingCalls;
    forall j | 0 <= j < |prefix| ensures prefix[j].callId != last.callId {
      assert BufferedIds(results)[j] != BufferedIds(results)[|prefix|];
    }
    assert Buffered(last.callId, last.content, last.isError) == last;
    AllAnswered(results, s.pendingCalls);
    ToolMessagesInCallOrder(s.pendingCalls, results);
  }

  lemma FullDelivery(s: State, results: seq<Buffered>)
    requires Invariant(s) && s.phase == WaitingForTools && s.buffered == [] && Answers(s, results)
    ensures ToolMessages(s.pendingCalls, results).Some?
    ensures Deliver(s, results) == AfterTools(s, s.messages + ToolMessages(s.pendingCalls, results).value)
  {
    var n := |results| - 1;
    var prefix, last := results[..n], results[n];
    PartialDelivery(s, results, n);
    assert results == prefix + [last];
    LastDelivery(s, prefix, last);
    DeliverSnoc(s, prefix, last);
  }

  lemma DeliverSnoc(s: State, prefix: seq<Buffered>, last: Buffered)
    requires Deliver(s, prefix).effects == []
    ensures
      var o := ToolFeedback(Deliver(s, prefix).state, last.callId, last.content, last.isError);
      Deliver(s, prefix + [last]) == Trace(o.next, o.effects)
  {
    assert (prefix + [last])[..|prefix|] == prefix;
  }

  lemma {:induction false} SameResultsSameMessages(calls: seq<string>, a: seq<Buffered>, b: seq<Buffered>)
    requires Distinct(BufferedIds(a)) && Distinct(BufferedIds(b)) && forall r :: r in a <==> r in b
    ensures ToolMessages(calls, a) == ToolMessages(calls, b)
  {
    if calls != [] {
      var n := |calls| - 1;
      SameResultsSameMessages(calls[..n], a, b);
      if FindResult(a, calls[n]).Some? {
        FindIsUnique(b, FindResult(a, calls[n]).value);
      } else if FindResult(b, calls[n]).Some? {
        FindIsUnique(a, FindResult(b, calls[n]).value);
      }
    }
  }

  lemma DeliveredMessages(s: State, results: seq<Buffered>)
    requires Invariant(s) && s.phase == WaitingForTools && s.buffered == [] && Answers(s, results)
    ensures ToolMessages(s.pendingCalls, results).Some?
    ensures Deliver(s, results).state.messages == s.messages + ToolMessages(s.pendingCalls, results).value
    ensures |ToolMessages(s.pendingCalls, results).value| == |s.pendingCalls|
    ensures forall k :: 0 <= k < |s.pendingCalls| ==>
      exists r :: r in results && r.callId == s.pendingCalls[k] && ToolMessages(s.pendingCalls, results).value[k] == ToolMessage(r)
  {
    FullDelivery(s, results);
    AllAnswered(results, s.pendingCalls);
    ToolMessagesInCallOrder(s.pendingCalls, results);
  }

  /**
   Tools may finish in any order: two deliveries of the same results leave the same state and
   emit the same effects, and the conversation grows by the results in the order of the calls.
   */
  lemma ToolOrderIsIrrelevant(s: State, first: seq<Buffered>, second: seq<Buffered>)
    requires Invariant(s) && s.phase == WaitingForTools && s.buffered == []
    requires Answers(s, first) && Answers(s, second) && forall r :: r in first <==> r in second
    ensures Deliver(s, first) == Deliver(s, second)
    ensures
      var added := ToolMessages(s.pendingCalls, first);
      && added.Some? && Deliver(s, first).state.messages == s.messages + added.value && |added.value| == |s.pendingCalls|
      && forall k :: 0 <= k < |s.pendingCalls| ==>
           exists r :: r in first && r.callId == s.pendingCalls[k] && added.value[k] == ToolMessage(r)
  {
    FullDelivery(s, first);
    FullDelivery(s, second);
    SameResultsSameMessages(s.pendingCalls, first, second);
    DeliveredMessages(s, first);
  }

  // ------------------------------------------------------------------ when the tool phase can end

  predicate NoCancel(inputs: seq<Input>) {
    forall i :: 0 <= i < |inputs| ==> !inputs[i].CancelTurn?
  }

  lemma RepeatedIdsStep(s: State, input: Input)
    requires Invariant(s) && s.phase == WaitingForTools && !Distinct(s.pendingCalls) && !input.CancelTurn?
    ensures Reduce(s, input).next.phase == WaitingForTools && Reduce(s, input).next.pendingCalls == s.pendingCalls
  {
    SetSize(s.pendingCalls);
    BufferedFits(s.buffered, s.pendingCalls);
    StepKeepsInvariant(s, input);
    if input.ToolCompleted? || input.ToolFailed? {
      var id := input.callId;
      if id in s.pendingCalls && !IsBuffered(s.buffered, id) {
        var grown := s.buffered + [Buffered(id, [], false)];
        var ids := BufferedIds(grown);
        assert forall i :: 0 <= i < |s.buffered| ==> ids[i] == BufferedIds(s.buffered)[i] == s.buffered[i].callId;
        assert Distinct(ids);
        BufferedFits(grown, s.pendingCalls);
      }
    }
  }

  lemma {:induction false} RepeatedIdsBlock(s: State, inputs: seq<Input>)
    requires Invariant(s) && s.phase == WaitingForTools && !Distinct(s.pendingCalls) && NoCancel(inputs)
    ensures Run(s, inputs).state.phase == WaitingForTools && Run(s, inputs).state.pendingCalls == s.pendingCalls
  {
    if inputs != [] {
      var n := |inputs| - 1;
      RepeatedIdsBlock(s, inputs[..n]);
      RunKeepsInvariant(s, inputs[..n]);
      RepeatedIdsStep(Run(s, inputs[..n]).state, inputs[n]);
    }
  }

  lemma {:induction false} RunCons(s: State, input: Input, inputs: seq<Input>)
    ensures Run(s, [input] + inputs).state == Run(Reduce(s, input).next, inputs).state
  {
    if inputs == [] {
      assert [input] + inputs == [input] && [input][..0] == [];
      assert Run(s, [input]).state == Reduce(Run(s, []).state, input).next;
    } else {
      var n := |inputs| - 1;
      assert ([input] + inputs)[..|inputs|] == [input] + inputs[..n];
      RunCons(s, input, inputs[..n]);
    }
  }

  lemma {:induction false} DistinctIdsFinish(s: State) returns (inputs: seq<Input>)
    requires Invariant(s) && s.phase == WaitingForTools && Distinct(s.pendingCalls)
    ensures NoCancel(inputs) && Run(s, inputs).state.phase != WaitingForTools
    decreases |s.pendingCalls| - |s.buffered|
  {
    var id := SomeCallUnanswered(s.buffered, s.pendingCalls);
    var input := ToolCompleted(id, []);
    var next := Reduce(s, input).next;
    StepKeepsInvariant(s, input);
    DeliveryProgresses(s, id);
    if next.phase == WaitingForTools {
      var rest := DistinctIdsFinish(next);
      inputs := [input] + rest;
      RunCons(s, input, rest);
    } else {
      inputs := [input];
      RunCons(s, input, []);
      assert [input] + [] == [input];
    }
  }

  lemma DeliveryProgresses(s: State, id: string)
    requires Invariant(s) && s.phase == WaitingForTools && id in s.pendingCalls && !IsBuffered(s.buffered, id)
    ensures
      var next := ToolFeedback(s, id, [], false).next;
      next.phase == WaitingForTools ==> next.pendingCalls == s.pendingCalls && |next.buffered| == |s.buffered| + 1
  {
    var grown := s.buffered + [Buffered(id, [], false)];
    var ids := BufferedIds(grown);
    assert forall i :: 0 <= i < |s.buffered| ==> ids[i] == BufferedIds(s.buffered)[i] == s.buffered[i].callId;
    assert Distinct(ids);
    if |grown| == |s.pendingCalls| {
      AllAnswered(grown, s.pendingCalls);
      ToolMessagesInCallOrder(s.pendingCalls, grown);
    }
  }

  /**
   A turn that waits for tools can go on without being cancelled exactly when the call ids of
   the model output are distinct; with a repeated id it waits for a result it always rejects.
   */
  lemma ToolPhaseCanEnd(s: State)
    requires Invariant(s) && s.phase == WaitingForTools
    ensures (exists inputs :: NoCancel(inputs) && Run(s, inputs).state.phase != WaitingForTools) <==> Distinct(s.pendingCalls)
  {
    if Distinct(s.pendingCalls) {
      var inputs := DistinctIdsFinish(s);
    } else {
      forall inputs | NoCancel(inputs) ensures Run(s, inputs).state.phase == WaitingForTools {
        RepeatedIdsBlock(s, inputs);
      }
    }
  }

  /** Such a turn is two inputs away from a new engine: a submission and an output that uses one call id twice. */
  lemma RepeatedIdIsReachable(messages: seq<Message>, settings: Settings, slotBudget: U32, call: Content, stuck: seq<Input>)
    requires slotBudget >= 1 && call.ToolUse? && NoCancel(stuck)
    ensures
      var inputs := [SubmitUserPrompt(messages, settings, slotBudget), ModelCompleted(RequestId(1), [call, call], ToolUseStop)];
      var s := Run(INITIAL, inputs).state;
      && s.phase == WaitingForTools && !Distinct(s.pendingCalls)
      && Run(s, stuck).state.phase == WaitingForTools
  {
    var submit, complete := SubmitUserPrompt(messages, settings, slotBudget), ModelCompleted(RequestId(1), [call, call], ToolUseStop);
    var submitted := Reduce(INITIAL, submit).next;
    var s := Reduce(submitted, complete).next;
    assert [submit] + [complete] == [submit, complete] && [complete] + [] == [complete];
    RunCons(INITIAL, submit, [complete]);
    RunCons(submitted, complete, []);
    assert Run(INITIAL, [submit, complete]).state == s;
    CalledTwice(call);
    assert s.pendingCalls[0] == s.pendingCalls[1];
    RunKeepsInvariant(INITIAL, [submit, complete]);
    RepeatedIdsBlock(s, stuck);
  }

  lemma CalledTwice(call: Content)
    requires call.ToolUse?
    ensures
      var calls := ExtractCalls([call, call]);
      |calls| == 2 && calls[0] == calls[1]
  {
    var output := [call, call];
    assert output[1..] == [call] && [call][1..] == [];
    assert ExtractCalls([call]) == [ToolCall(call.id, call.name, call.input)] + ExtractCalls([]);
    assert ExtractCalls(output) == [ToolCall(call.id, call.name, call.input)] + ExtractCalls(output[1..]);
  }
}

/**
 The object of the engine crate that hosts drive. It owns the state and replaces it with each
 outcome; the ghost fields record where it started, what it was given and what it emitted, so
 everything proved of runs holds of the object at any time.
 */
module EngineObject {
  import opened Engine
  import opened EngineRuns
  import EngineConversation
  import opened Counting

  class EmbeddableEngine {
    var state: State
    ghost var origin: State
    ghost var inputs: seq<Input>
    ghost var emitted: seq<Effect>

    /** The object stands where the run of its inputs leads, and a start in order keeps it in order. */
    ghost predicate Valid()
      reads this
    {
      && Run(origin, inputs) == Trace(state, emitted)
      && (Invariant(origin) ==> Invariant(state))
    }

    constructor ()
      ensures Valid() && state == origin == INITIAL && Invariant(state) && inputs == []
    {
      state, origin, inputs, emitted := INITIAL, INITIAL, [], [];
    }

    /** `from_state`: any state is taken as it is. */
    constructor FromState(start: State)
      ensures Valid() && state == origin == start && inputs == []
    {
      state, origin, inputs, emitted := start, start, [], [];
    }

    method ApplyInput(input: Input) returns (outcome: Outcome)
      requires Valid()
      modifies this
      ensures Valid() && origin == old(origin) && inputs == old(inputs) + [input]
      ensures outcome == Reduce(old(state), input) && state == outcome.next
      ensures emitted == old(emitted) + outcome.effects
      ensures old(Invariant(state)) ==> Invariant(state)
    {
      outcome := Reduce(state, input);
      if Invariant(state) {
        StepKeepsInvariant(state, input);
      }
      assert (inputs + [input])[..|inputs|] == inputs;
      state := outcome.next;
      inputs, emitted := inputs + [input], emitted + outcome.effects;
    }

    /** `submit_turn`: on a new engine with a budget the turn starts; otherwise nothing changes. */
    method SubmitTurn(messages: seq<Message>, settings: Settings, slotBudget: U32) returns (outcome: Outcome)
      requires Valid()
      modifies this
      ensures Valid() && origin == old(origin)
      ensures inputs == old(inputs) + [SubmitUserPrompt(messages, settings, slotBudget)]
      ensures old(Invariant(state)) ==> Invariant(state)
      ensures old(state.phase != Idle) || slotBudget == 0 ==> outcome.rejection.Some? && state == old(state) && emitted == old(emitted)
      ensures old(state) == INITIAL && slotBudget >= 1 ==>
        outcome.rejection.None? && state.phase == WaitingForModel && state.messages == messages && state.slotBudget == slotBudget
    {
      outcome := ApplyInput(SubmitUserPrompt(messages, settings, slotBudget));
    }
  }

  /** What any host sees of an object that started new: budget, single start and single end of the turn. */
  lemma ObjectStaysInBudget(engine: EmbeddableEngine)
    requires engine.Valid() && engine.origin == INITIAL
    ensures
      var y := TallyOf(engine.emitted);
      && Invariant(engine.state) && engine.state.slotsUsed <= engine.state.slotBudget
      && y.requests <= 3 * engine.state.slotBudget
      && y.busy == Bit(engine.state.phase != Idle)
      && y.finished == Bit(engine.state.phase == Finished)
  {
    TurnStaysInBudget(engine.inputs);
  }

  /** The conversation of an object that started new is what its accepted inputs say. */
  lemma ObjectHoldsTheConversation(engine: EmbeddableEngine)
    requires engine.Valid() && engine.origin == INITIAL
    ensures engine.state.messages == EngineConversation.TalkOf(engine.inputs).messages
  {
    EngineConversation.ConversationIsWhatWasSaid(engine.inputs);
  }
}

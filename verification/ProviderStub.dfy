/**
 The multi-threaded provider stub of the streaming-abort harness and the main thread that
 judges it, as a step system: one listener, one worker thread per accepted connection, four
 shared timing cells, a clock, and a main thread that loads the cells one at a time. A run is
 any sequence of steps, so the theorems hold for every interleaving.
 */
module ProviderStub {

  const UNSET_MS: nat := 0xFFFF_FFFF_FFFF_FFFF
  const LEAD_EVENTS: nat := 3
  const LEAD_DELAY_MS: nat := 1_000
  const STREAM_CHUNKS: nat := 20_000
  const STREAM_CHUNK_DELAY_MS: nat := 5
  const STREAM_EVENTS: nat := LEAD_EVENTS + STREAM_CHUNKS + 3
  const FOLLOWUP_EVENTS: nat := 6

  /** The event of the follow-up that carries the acknowledgement. */
  const ACK_EVENT: nat := 2

  /** The first event of the stream that is followed by no sleep, and all sleep before it. */
  const CLOSING_EVENT: nat := LEAD_EVENTS + STREAM_CHUNKS
  const STREAM_SLEEP_MS: nat := LEAD_DELAY_MS + STREAM_CHUNKS * STREAM_CHUNK_DELAY_MS

  /** `elapsed_ms`: what does not fit is clamped to one below the unset marker. */
  function ElapsedMs(now: nat): nat {
    if now <= UNSET_MS then now else UNSET_MS - 1
  }

  /** A time that is taken looks unset in one millisecond only, and before it is the clock itself. */
  lemma TakenTimeIsSet(now: nat)
    ensures ElapsedMs(now) == UNSET_MS <==> now == UNSET_MS
    ensures now < UNSET_MS ==> ElapsedMs(now) == now
  {
  }

  /** An atomic timing cell; `writes` counts the stores made to it so far. */
  datatype Cell = Cell(value: nat, writes: nat)

  /**
   Where a worker stands. Taking the time and storing it are two steps, as they are in the
   source: other threads can run in between. A worker that sleeps before event `k` goes on
   no earlier than `until`.
   */
  datatype Pc =
    | Reading
    | TakeStart | StoreStart(t: nat)
    | TakeFollowup | StoreFollowup(t: nat)
    | Headers
    | Event(k: nat)
    | Asleep(k: nat, until: nat)
    | TakeClosed | StoreClosed(t: nat)
    | TakeDone | StoreDone(t: nat)
    | Finished

  datatype Worker = Worker(index: nat, pc: Pc)

  datatype Main =
    | Waiting
    | GotCount(count: nat)
    | GotFollowup(count: nat, followup: nat)
    | Passed(count: nat, followup: nat, completed: nat)
    | Failed

  datatype State = State(
    now: nat, count: nat, workers: seq<Worker>,
    started: Cell, completed: Cell, closed: Cell, followup: Cell, acked: bool, main: Main)

  /** `ok` says whether the read or write of this step succeeds. */
  datatype Step = Tick | Accept | Work(w: nat, ok: bool) | MainLoad

  const FRESH := Cell(UNSET_MS, 0)
  const INITIAL := State(0, 0, [], FRESH, FRESH, FRESH, FRESH, false, Waiting)

  function Store(c: Cell, v: nat): Cell {
    Cell(v, c.writes + 1)
  }

  function Move(s: State, w: nat, pc: Pc): State
    requires w < |s.workers|
  {
    s.(workers := s.workers[w := s.workers[w].(pc := pc)])
  }

  function EventCount(index: nat): nat {
    if index == 0 then STREAM_EVENTS else FOLLOWUP_EVENTS
  }

  /** Where the stream worker goes after event `k`: it sleeps once after the opening events and after each chunk. */
  function AfterStreamEvent(k: nat, now: nat): Pc {
    if k == LEAD_EVENTS - 1 then Asleep(LEAD_EVENTS, now + LEAD_DELAY_MS)
    else if LEAD_EVENTS <= k < CLOSING_EVENT then Asleep(k + 1, now + STREAM_CHUNK_DELAY_MS)
    else if k + 1 < STREAM_EVENTS then Event(k + 1)
    else TakeDone
  }

  /** One step of a worker; the index of its connection decides which handler it runs. */
  function WorkerStep(s: State, w: nat, ok: bool): State
    requires w < |s.workers|
  {
    var index, pc := s.workers[w].index, s.workers[w].pc;
    match pc
    case Reading =>
      if !ok then Move(s, w, Finished)
      else if index == 0 then Move(s, w, TakeStart)
      else if index == 1 then Move(s, w, TakeFollowup)
      else Move(s, w, Headers)
    case TakeStart => Move(s, w, StoreStart(ElapsedMs(s.now)))
    case StoreStart(t) => Move(s, w, Headers).(started := Store(s.started, t))
    case TakeFollowup => Move(s, w, StoreFollowup(ElapsedMs(s.now)))
    case StoreFollowup(t) => Move(s, w, Headers).(followup := Store(s.followup, t))
    case Headers => if ok then Move(s, w, Event(0)) else Move(s, w, Finished)
    case Event(k) =>
      if index == 0 then Move(s, w, if ok then AfterStreamEvent(k, s.now) else TakeClosed)
      else Move(s, w, if ok && k + 1 < FOLLOWUP_EVENTS then Event(k + 1) else Finished)
        .(acked := s.acked || (ok && index == 1 && k == ACK_EVENT))
    case Asleep(k, until) => if until <= s.now then Move(s, w, Event(k)) else s
    case TakeClosed => Move(s, w, StoreClosed(ElapsedMs(s.now)))
    case StoreClosed(t) => Move(s, w, Finished).(closed := Store(s.closed, t))
    case TakeDone => Move(s, w, StoreDone(ElapsedMs(s.now)))
    case StoreDone(t) => Move(s, w, Finished).(completed := Store(s.completed, t))
    case Finished => s
  }

  /**
   The main thread waits until the acknowledgement is on the screen, so no earlier than it was
   sent. Then it loads the request count, the follow-up time and the completion time, and decides.
   */
  function MainStep(s: State): State {
    match s.main
    case Waiting => if s.acked then s.(main := GotCount(s.count)) else s
    case GotCount(c) => s.(main := GotFollowup(c, s.followup.value))
    case GotFollowup(c, f) =>
      var d := s.completed.value;
      s.(main := if c < 2 || f == UNSET_MS || (d != UNSET_MS && f >= d) then Failed else Passed(c, f, d))
    case Passed(_, _, _) => s
    case Failed => s
  }

  function Apply(s: State, step: Step): State {
    match step
    case Tick => s.(now := s.now + 1)
    case Accept => s.(count := s.count + 1, workers := s.workers + [Worker(s.count, Reading)])
    case Work(w, ok) => if w < |s.workers| then WorkerStep(s, w, ok) else s
    case MainLoad => MainStep(s)
  }

  function Run(s: State, steps: seq<Step>): State {
    if steps == [] then s else Apply(Run(s, steps[..|steps| - 1]), steps[|steps| - 1])
  }

  ghost predicate Reachable(s: State) {
    exists steps :: s == Run(INITIAL, steps)
  }

  // ------------------------------------------------------------------ the invariant

  predicate PcFits(index: nat, pc: Pc) {
    match pc
    case Reading => true
    case Headers => true
    case Finished => true
    case Event(k) => k < EventCount(index)
    case Asleep(k, _) => index == 0 && LEAD_EVENTS <= k <= CLOSING_EVENT
    case TakeFollowup => index == 1
    case StoreFollowup(_) => index == 1
    case _ => index == 0
  }

  predicate WorkersOk(s: State) {
    && s.count == |s.workers|
    && forall i :: 0 <= i < |s.workers| ==> s.workers[i].index == i && PcFits(i, s.workers[i].pc)
  }

  predicate Unwritten(c: Cell) {
    c == FRESH
  }

  /** Written exactly once, with a time that is not in the future. */
  predicate WrittenOnce(c: Cell, now: nat) {
    c.writes == 1 && (now < UNSET_MS ==> c.value <= now)
  }

  function PcOf(s: State, w: nat): Pc {
    if w < |s.workers| then s.workers[w].pc else Reading
  }

  predicate TakenBy(t: nat, now: nat) {
    now < UNSET_MS ==> t <= now
  }

  /** How long the stream worker has slept, at least, when it comes to event `k`. */
  function SleptBefore(k: nat): nat {
    if k < LEAD_EVENTS then 0
    else if k <= CLOSING_EVENT then LEAD_DELAY_MS + (k - LEAD_EVENTS) * STREAM_CHUNK_DELAY_MS
    else STREAM_SLEEP_MS
  }

  /** At `t` the stream had started at least `slept` ago. */
  predicate SleptBy(s: State, slept: nat, t: nat) {
    s.now < UNSET_MS ==> s.started.value + slept <= t
  }

  /** What the stream cells hold, given where the stream worker stands. */
  predicate StreamOk(s: State) {
    match PcOf(s, 0)
    case Reading => Unwritten(s.started) && Unwritten(s.completed) && Unwritten(s.closed)
    case TakeStart => Unwritten(s.started) && Unwritten(s.completed) && Unwritten(s.closed)
    case StoreStart(t) => Unwritten(s.started) && Unwritten(s.completed) && Unwritten(s.closed) && TakenBy(t, s.now)
    case Finished =>
      || (Unwritten(s.started) && Unwritten(s.completed) && Unwritten(s.closed))
      || (&& WrittenOnce(s.started, s.now)
          && (Unwritten(s.completed) || (AfterStart(s, s.completed) && SleptBy(s, STREAM_SLEEP_MS, s.completed.value)))
          && (Unwritten(s.closed) || AfterStart(s, s.closed))
          && (Unwritten(s.completed) || Unwritten(s.closed)))
    case StoreClosed(t) => Streaming(s) && SampledAfterStart(s, t)
    case Event(k) => Streaming(s) && SleptBy(s, SleptBefore(k), s.now)
    case Asleep(k, until) => Streaming(s) && SleptBy(s, SleptBefore(k), until)
    case TakeDone => Streaming(s) && SleptBy(s, STREAM_SLEEP_MS, s.now)
    case StoreDone(t) => Streaming(s) && SampledAfterStart(s, t) && SleptBy(s, STREAM_SLEEP_MS, t)
    case _ => Streaming(s)
  }

  predicate Streaming(s: State) {
    WrittenOnce(s.started, s.now) && Unwritten(s.completed) && Unwritten(s.closed)
  }

  predicate AfterStart(s: State, c: Cell) {
    WrittenOnce(c, s.now) && (s.now < UNSET_MS ==> s.started.value <= c.value)
  }

  predicate SampledAfterStart(s: State, t: nat) {
    s.now < UNSET_MS ==> s.started.value <= t <= s.now
  }

  predicate FollowupOk(s: State) {
    match PcOf(s, 1)
    case Reading => Unwritten(s.followup)
    case TakeFollowup => Unwritten(s.followup)
    case StoreFollowup(t) => Unwritten(s.followup) && TakenBy(t, s.now)
    case Finished => Unwritten(s.followup) || WrittenOnce(s.followup, s.now)
    case _ => WrittenOnce(s.followup, s.now)
  }

  /** What the main thread has loaded is still what the cells say, or says that they were unset. */
  predicate MainOk(s: State) {
    match s.main
    case GotCount(c) => c <= s.count
    case GotFollowup(c, f) => c <= s.count && (f == UNSET_MS || f == s.followup.value)
    case Passed(c, f, d) =>
      && 2 <= c <= s.count && f != UNSET_MS && f == s.followup.value && s.followup.writes == 1
      && (d == UNSET_MS || (d == s.completed.value && f < d))
    case _ => true
  }

  predicate Invariant(s: State) {
    WorkersOk(s) && StreamOk(s) && FollowupOk(s) && MainOk(s)
  }

  /** A worker step moves one worker, to a point that fits it. */
  lemma WorkerMoves(s: State, w: nat, ok: bool) returns (pc: Pc)
    requires WorkersOk(s) && w < |s.workers|
    ensures PcFits(w, pc) && WorkerStep(s, w, ok).workers == s.workers[w := Worker(w, pc)]
  {
    assert PcFits(w, s.workers[w].pc) && s.workers[w].index == w;
    pc := WorkerStep(s, w, ok).workers[w].pc;
    assert s.workers[w := s.workers[w]] == s.workers;
  }

  /** A worker step touches only the cells of its own connection. */
  lemma WorkerTouches(s: State, w: nat, ok: bool)
    requires WorkersOk(s) && w < |s.workers|
    ensures
      var s' := WorkerStep(s, w, ok);
      && s'.count == s.count && s'.now == s.now && s'.main == s.main
      && (w != 0 ==> s'.started == s.started && s'.completed == s.completed && s'.closed == s.closed)
      && (w != 1 ==> s'.followup == s.followup)
  {
    assert PcFits(w, s.workers[w].pc);
  }

  lemma WorkerFrame(s: State, w: nat, ok: bool)
    requires WorkersOk(s) && w < |s.workers|
    ensures WorkersOk(WorkerStep(s, w, ok))
    ensures
      var s' := WorkerStep(s, w, ok);
      && s'.now == s.now && s'.main == s.main && |s'.workers| == |s.workers|
      && (forall v :: 0 <= v < |s.workers| && v != w ==> PcOf(s', v) == PcOf(s, v))
      && (w != 0 ==> s'.started == s.started && s'.completed == s.completed && s'.closed == s.closed)
      && (w != 1 ==> s'.followup == s.followup)
  {
    var pc := WorkerMoves(s, w, ok);
    WorkerTouches(s, w, ok);
  }

  /** Sending an event keeps count of the sleeps: it either goes to sleep again or has them all behind it. */
  lemma SleepsAddUp(k: nat, now: nat)
    requires k < STREAM_EVENTS
    ensures
      match AfterStreamEvent(k, now)
      case Event(next) => next == k + 1 && SleptBefore(next) == SleptBefore(k)
      case Asleep(next, until) => next == k + 1 && SleptBefore(next) - SleptBefore(k) == until - now
      case TakeDone => SleptBefore(k) == STREAM_SLEEP_MS
      case _ => false
  {
  }

  lemma StreamEventStep(s: State, k: nat, ok: bool)
    requires WorkersOk(s) && StreamOk(s) && 0 < |s.workers| && PcOf(s, 0) == Event(k)
    ensures StreamOk(WorkerStep(s, 0, ok)) && WorkerStep(s, 0, ok).completed == s.completed == FRESH
  {
    assert PcFits(0, s.workers[0].pc) && s.workers[0].index == 0;
    SleepsAddUp(k, s.now);
    var s' := WorkerStep(s, 0, ok);
    assert PcOf(s', 0) == if ok then AfterStreamEvent(k, s.now) else TakeClosed;
    assert Streaming(s');
  }

  lemma StreamWorkerStep(s: State, ok: bool)
    requires WorkersOk(s) && StreamOk(s) && 0 < |s.workers|
    ensures StreamOk(WorkerStep(s, 0, ok))
    ensures s.completed.writes == 1 ==> WorkerStep(s, 0, ok).completed == s.completed
  {
    assert PcFits(0, s.workers[0].pc) && s.workers[0].index == 0;
    if s.workers[0].pc.Event? {
      StreamEventStep(s, s.workers[0].pc.k, ok);
    } else {
      assert PcOf(s, 0) == s.workers[0].pc;
      assert WorkerStep(s, 0, ok).now == s.now;
    }
  }

  lemma FollowupWorkerStep(s: State, ok: bool)
    requires WorkersOk(s) && FollowupOk(s) && 1 < |s.workers|
    ensures FollowupOk(WorkerStep(s, 1, ok))
    ensures s.followup.writes == 1 ==> WorkerStep(s, 1, ok).followup == s.followup
  {
    assert PcFits(1, s.workers[1].pc) && s.workers[1].index == 1;
  }

  lemma WorkerKeepsInvariant(s: State, w: nat, ok: bool)
    requires Invariant(s) && w < |s.workers|
    ensures Invariant(WorkerStep(s, w, ok))
  {
    var s' := WorkerStep(s, w, ok);
    WorkerFrame(s, w, ok);
    if w == 0 {
      StreamWorkerStep(s, ok);
    } else {
      assert PcOf(s', 0) == PcOf(s, 0);
    }
    if w == 1 {
      FollowupWorkerStep(s, ok);
    } else {
      assert PcOf(s', 1) == PcOf(s, 1);
    }
    CellsSetOnce(s);
  }

  /** A cell that holds a time has been written. */
  lemma CellsSetOnce(s: State)
    requires StreamOk(s) && FollowupOk(s)
    ensures s.completed.value != UNSET_MS ==> s.completed.writes == 1
    ensures s.followup.value != UNSET_MS ==> s.followup.writes == 1
  {
  }

  lemma AcceptKeepsInvariant(s: State)
    requires Invariant(s)
    ensures Invariant(Apply(s, Accept))
  {
    var s' := Apply(s, Accept);
    assert PcOf(s', 0) == PcOf(s, 0) && PcOf(s', 1) == PcOf(s, 1);
  }

  lemma MainKeepsInvariant(s: State)
    requires Invariant(s)
    ensures Invariant(MainStep(s))
  {
    var s' := MainStep(s);
    CellsSetOnce(s);
    assert s' == s.(main := s'.main);
    assert PcOf(s', 0) == PcOf(s, 0) && PcOf(s', 1) == PcOf(s, 1);
    assert MainOk(s');
  }

  lemma StepKeepsInvariant(s: State, step: Step)
    requires Invariant(s)
    ensures Invariant(Apply(s, step))
  {
    if step.Tick? {
      TickKeepsInvariant(s);
    } else if step.Accept? {
      AcceptKeepsInvariant(s);
    } else if step.MainLoad? {
      MainKeepsInvariant(s);
    } else if step.w < |s.workers| {
      WorkerKeepsInvariant(s, step.w, step.ok);
    }
  }

  lemma TickKeepsInvariant(s: State)
    requires Invariant(s)
    ensures Invariant(Apply(s, Tick))
  {
  }

  /** Every reachable state satisfies the invariant, whatever the interleaving. */
  lemma {:induction false} RunKeepsInvariant(s: State, steps: seq<Step>)
    requires Invariant(s)
    ensures Invariant(Run(s, steps))
  {
    if steps != [] {
      RunKeepsInvariant(s, steps[..|steps| - 1]);
      StepKeepsInvariant(Run(s, steps[..|steps| - 1]), steps[|steps| - 1]);
    }
  }

  // ------------------------------------------------------------------ safety of every run

  /**
   In every run: connections get distinct indexes, each timing cell is written at most once,
   the stream is never both completed and closed early, and either implies that it started,
   no later than it ended.
   */
  lemma StubSafety(steps: seq<Step>)
    ensures
      var s := Run(INITIAL, steps);
      && (forall i, j :: 0 <= i < j < |s.workers| ==> s.workers[i].index != s.workers[j].index)
      && s.started.writes <= 1 && s.completed.writes <= 1 && s.closed.writes <= 1 && s.followup.writes <= 1
      && !(s.completed.writes == 1 && s.closed.writes == 1)
      && (s.completed.writes == 1 || s.closed.writes == 1 ==> s.started.writes == 1)
      && (s.now < UNSET_MS ==>
            && (s.completed.writes == 1 ==> s.started.value <= s.completed.value <= s.now)
            && (s.closed.writes == 1 ==> s.started.value <= s.closed.value <= s.now))
  {
    RunKeepsInvariant(INITIAL, steps);
  }

  /** In every run the stream completes no earlier than all its sleeps after it started. */
  lemma CompletionTakesTheSleeps(steps: seq<Step>)
    ensures
      var s := Run(INITIAL, steps);
      s.now < UNSET_MS && s.completed.writes == 1 ==> s.started.value + STREAM_SLEEP_MS <= s.completed.value
  {
    RunKeepsInvariant(INITIAL, steps);
  }

  /** Only the first connection writes the stream cells and only the second writes the follow-up cell. */
  lemma OnlyTheOwnerWrites(s: State, step: Step)
    requires Invariant(s)
    ensures
      var s' := Apply(s, step);
      && (s'.followup != s.followup ==> step.Work? && step.w == 1)
      && (s'.started != s.started || s'.completed != s.completed || s'.closed != s.closed ==> step.Work? && step.w == 0)
  {
    if step.Work? && step.w < |s.workers| {
      WorkerFrame(s, step.w, step.ok);
    }
  }

  // ------------------------------------------------------------------ what the reads and writes of a worker lead to

  /** A point at which a worker reads its request or writes to its connection. */
  predicate AtIo(pc: Pc) {
    pc.Reading? || pc.Headers? || pc.Event?
  }

  /** The outcomes of the reads and writes of worker `w` so far: the request, the headers, then the events. */
  function Outcomes(steps: seq<Step>, w: nat): seq<bool> {
    if steps == [] then []
    else
      var n := |steps| - 1;
      var s, step := Run(INITIAL, steps[..n]), steps[n];
      Outcomes(steps[..n], w)
      + if step.Work? && step.w == w && w < |s.workers| && AtIo(PcOf(s, w)) then [step.ok] else []
  }

  /** Everything before the last outcome has succeeded. */
  predicate SucceededBefore(h: seq<bool>) {
    forall i :: 0 <= i < |h| - 1 ==> h[i]
  }

  predicate NoEnd(s: State) {
    Unwritten(s.completed) && Unwritten(s.closed)
  }

  /** How far the stream worker has come after its outcomes `h`, and which of its ends is recorded. */
  predicate StreamStory(s: State, h: seq<bool>) {
    var pc := PcOf(s, 0);
    SucceededBefore(h) &&
    if h == [] then pc.Reading?
    else if |h| <= 2 && !h[|h| - 1] then pc.Finished? && NoEnd(s) && s.started.writes == |h| - 1
    else if |h| == 1 then pc.TakeStart? || pc.StoreStart? || pc.Headers?
    else if !h[|h| - 1] then
      Unwritten(s.completed) && (pc.TakeClosed? || pc.StoreClosed? || (pc.Finished? && s.closed.writes == 1))
    else if |h| - 2 < STREAM_EVENTS then NoEnd(s) && (pc == Event(|h| - 2) || (pc.Asleep? && pc.k == |h| - 2))
    else |h| - 2 == STREAM_EVENTS && Unwritten(s.closed) && (pc.TakeDone? || pc.StoreDone? || (pc.Finished? && s.completed.writes == 1))
  }

  /** The same for the follow-up worker, and whether its acknowledgement has been sent. */
  predicate FollowupStory(s: State, h: seq<bool>) {
    var pc := PcOf(s, 1);
    && SucceededBefore(h) && |h| - 2 <= FOLLOWUP_EVENTS
    && (s.acked <==> |h| > ACK_EVENT + 2 && h[ACK_EVENT + 2])
    && (s.main.Waiting? || s.acked)
    && if h == [] then pc.Reading?
       else if |h| == 1 && !h[0] then pc.Finished? && Unwritten(s.followup)
       else if |h| == 1 then pc.TakeFollowup? || pc.StoreFollowup? || pc.Headers?
       else s.followup.writes == 1 && pc == if h[|h| - 1] && |h| - 2 < FOLLOWUP_EVENTS then Event(|h| - 2) else Finished
  }

  predicate Stories(s: State, stream: seq<bool>, followup: seq<bool>) {
    StreamStory(s, stream) && FollowupStory(s, followup)
  }

  function Longer(h: seq<bool>, s: State, w: nat, step: Step): seq<bool> {
    h + if step.Work? && step.w == w && w < |s.workers| && AtIo(PcOf(s, w)) then [step.ok] else []
  }

  lemma StreamStoryStep(s: State, ok: bool, h: seq<bool>)
    requires Invariant(s) && 0 < |s.workers| && StreamStory(s, h)
    ensures StreamStory(WorkerStep(s, 0, ok), Longer(h, s, 0, Work(0, ok)))
  {
    assert PcFits(0, s.workers[0].pc) && s.workers[0].index == 0;
    assert PcOf(s, 0) == s.workers[0].pc;
  }

  lemma FollowupStoryStep(s: State, ok: bool, h: seq<bool>)
    requires Invariant(s) && 1 < |s.workers| && FollowupStory(s, h)
    ensures FollowupStory(WorkerStep(s, 1, ok), Longer(h, s, 1, Work(1, ok)))
  {
    assert PcFits(1, s.workers[1].pc) && s.workers[1].index == 1;
    assert PcOf(s, 1) == s.workers[1].pc;
  }

  /** The cells and the point of a worker are as they were, so its story is as well. */
  lemma StreamStoryStays(s: State, s': State, h: seq<bool>)
    requires StreamStory(s, h) && PcOf(s', 0) == PcOf(s, 0)
    requires s'.started == s.started && s'.completed == s.completed && s'.closed == s.closed
    ensures StreamStory(s', h)
  {
  }

  lemma FollowupStoryStays(s: State, s': State, h: seq<bool>)
    requires FollowupStory(s, h) && PcOf(s', 1) == PcOf(s, 1) && s'.followup == s.followup && s'.acked == s.acked
    requires s'.main.Waiting? || s.acked
    ensures FollowupStory(s', h)
  {
  }

  lemma OtherSteps(s: State, step: Step)
    requires Invariant(s) && (step.Work? ==> step.w >= |s.workers|)
    ensures
      var s' := Apply(s, step);
      && PcOf(s', 0) == PcOf(s, 0) && PcOf(s', 1) == PcOf(s, 1) && s'.acked == s.acked
      && s'.started == s.started && s'.completed == s.completed && s'.closed == s.closed && s'.followup == s.followup
      && (s.main.Waiting? && !s.acked ==> s'.main.Waiting?)
  {
  }

  lemma OthersWork(s: State, w: nat, ok: bool)
    requires Invariant(s) && w < |s.workers|
    ensures w != 1 ==> WorkerStep(s, w, ok).acked == s.acked
    ensures WorkerStep(s, w, ok).main == s.main
  {
    assert s.workers[w].index == w;
  }

  lemma StoriesStep(s: State, step: Step, stream: seq<bool>, followup: seq<bool>)
    requires Invariant(s) && Stories(s, stream, followup)
    ensures Stories(Apply(s, step), Longer(stream, s, 0, step), Longer(followup, s, 1, step))
  {
    assert stream + [] == stream && followup + [] == followup;
    var s' := Apply(s, step);
    if step.Work? && step.w < |s.workers| {
      WorkerFrame(s, step.w, step.ok);
      OthersWork(s, step.w, step.ok);
      if step.w == 0 {
        StreamStoryStep(s, step.ok, stream);
      } else {
        assert PcOf(s', 0) == PcOf(s, 0);
        StreamStoryStays(s, s', stream);
      }
      if step.w == 1 {
        FollowupStoryStep(s, step.ok, followup);
      } else {
        assert PcOf(s', 1) == PcOf(s, 1);
        FollowupStoryStays(s, s', followup);
      }
    } else {
      OtherSteps(s, step);
      StreamStoryStays(s, s', stream);
      FollowupStoryStays(s, s', followup);
    }
  }

  /**
   In every run the outcomes of the reads and writes decide what is recorded. The stream has
   an early close exactly when the write of an event failed and a completion exactly when all
   events were written; with the request unread or the headers unsent it has neither. The
   follow-up has a start exactly when its request was read, and the main thread judges only
   after the acknowledgement was sent.
   */
  lemma {:induction false} OutcomesDecide(steps: seq<Step>)
    ensures Stories(Run(INITIAL, steps), Outcomes(steps, 0), Outcomes(steps, 1))
  {
    if steps != [] {
      var n := |steps| - 1;
      OutcomesDecide(steps[..n]);
      RunKeepsInvariant(INITIAL, steps[..n]);
      StoriesStep(Run(INITIAL, steps[..n]), steps[n], Outcomes(steps[..n], 0), Outcomes(steps[..n], 1));
    }
  }

  /** A finished stream worker that had sent its headers has exactly one of completion and early close. */
  lemma FinishedStreamHasOneEnd(steps: seq<Step>)
    requires PcOf(Run(INITIAL, steps), 0).Finished? && |Outcomes(steps, 0)| > 2
    ensures
      var s := Run(INITIAL, steps);
      && s.completed.writes + s.closed.writes == 1
      && (s.closed.writes == 1 <==> false in Outcomes(steps, 0))
  {
    OutcomesDecide(steps);
    var h := Outcomes(steps, 0);
    assert h[|h| - 1] in h;
  }

  /** What a worker records, each in a cell of its own. */
  datatype Mark = Start | Completion | EarlyClose | FollowupStart

  function WorkerOf(m: Mark): nat {
    if m.FollowupStart? then 1 else 0
  }

  function CellOf(s: State, m: Mark): Cell {
    match m
    case Start => s.started
    case Completion => s.completed
    case EarlyClose => s.closed
    case FollowupStart => s.followup
  }

  /** The read or write of this turn is the one after which the mark is due. */
  predicate Triggers(s: State, ok: bool, m: Mark) {
    match PcOf(s, WorkerOf(m))
    case Reading => ok && (m.Start? || m.FollowupStart?)
    case Event(k) => if ok then m.Completion? && k == STREAM_EVENTS - 1 else m.EarlyClose?
    case _ => false
  }

  predicate TakesNext(pc: Pc, m: Mark) {
    match m
    case Start => pc.TakeStart?
    case Completion => pc.TakeDone?
    case EarlyClose => pc.TakeClosed?
    case FollowupStart => pc.TakeFollowup?
  }

  predicate StoresNext(pc: Pc, m: Mark) {
    match m
    case Start => pc.StoreStart?
    case Completion => pc.StoreDone?
    case EarlyClose => pc.StoreClosed?
    case FollowupStart => pc.StoreFollowup?
  }

  predicate Within(since: nat, t: nat, now: nat) {
    now < UNSET_MS ==> since <= t <= now
  }

  /** The mark became due at time `since` and its worker has had this many turns from then on. */
  predicate Due(s: State, m: Mark, since: nat, turns: nat) {
    var pc := PcOf(s, WorkerOf(m));
    && WorkerOf(m) < |s.workers| && since <= s.now
    && if turns == 0 then TakesNext(pc, m)
       else if turns == 1 then StoresNext(pc, m) && Within(since, pc.t, s.now)
       else CellOf(s, m).writes == 1 && Within(since, CellOf(s, m).value, s.now)
  }

  function Turns(steps: seq<Step>, w: nat): nat {
    if steps == [] then 0
    else Turns(steps[..|steps| - 1], w) + if steps[|steps| - 1].Work? && steps[|steps| - 1].w == w then 1 else 0
  }

  lemma DueTurn(s: State, m: Mark, since: nat, turns: nat, ok: bool)
    requires Invariant(s) && Due(s, m, since, turns)
    ensures Due(WorkerStep(s, WorkerOf(m), ok), m, since, turns + 1)
  {
    var w := WorkerOf(m);
    WorkerFrame(s, w, ok);
    assert PcFits(w, s.workers[w].pc) && s.workers[w].index == w;
    assert PcOf(s, w) == s.workers[w].pc;
  }

  lemma DueStays(s: State, s': State, m: Mark, since: nat, turns: nat)
    requires Due(s, m, since, turns)
    requires PcOf(s', WorkerOf(m)) == PcOf(s, WorkerOf(m)) && CellOf(s', m) == CellOf(s, m)
    requires |s.workers| <= |s'.workers| && s.now <= s'.now
    ensures Due(s', m, since, turns)
  {
  }

  lemma DueStep(s: State, step: Step, m: Mark, since: nat, turns: nat)
    requires Invariant(s) && Due(s, m, since, turns)
    ensures Due(Apply(s, step), m, since, turns + if step.Work? && step.w == WorkerOf(m) then 1 else 0)
  {
    if step.Work? && step.w == WorkerOf(m) {
      DueTurn(s, m, since, turns, step.ok);
    } else {
      if step.Work? && step.w < |s.workers| {
        WorkerFrame(s, step.w, step.ok);
        assert PcOf(Apply(s, step), WorkerOf(m)) == PcOf(s, WorkerOf(m));
      } else {
        OtherSteps(s, step);
      }
      DueStays(s, Apply(s, step), m, since, turns);
    }
  }

  lemma TriggeredIsDue(s: State, ok: bool, m: Mark)
    requires Invariant(s) && WorkerOf(m) < |s.workers| && Triggers(s, ok, m)
    ensures Due(Apply(s, Work(WorkerOf(m), ok)), m, s.now, 0)
  {
    var w := WorkerOf(m);
    assert PcFits(w, s.workers[w].pc) && s.workers[w].index == w;
    assert PcOf(s, w) == s.workers[w].pc;
  }

  /**
   Two more turns of its worker record a mark: the start once the request is read, the
   completion once the last event is written, the early close once the write of an event has
   failed. The time recorded is not before that moment, whatever runs in between, and stays.
   */
  lemma {:induction false} MarksAreRecorded(s: State, ok: bool, m: Mark, steps: seq<Step>)
    requires Invariant(s) && WorkerOf(m) < |s.workers| && Triggers(s, ok, m)
    ensures Due(Run(Apply(s, Work(WorkerOf(m), ok)), steps), m, s.now, Turns(steps, WorkerOf(m)))
  {
    var due := Apply(s, Work(WorkerOf(m), ok));
    TriggeredIsDue(s, ok, m);
    if steps != [] {
      var n := |steps| - 1;
      StepKeepsInvariant(s, Work(WorkerOf(m), ok));
      MarksAreRecorded(s, ok, m, steps[..n]);
      RunKeepsInvariant(due, steps[..n]);
      DueStep(Run(due, steps[..n]), steps[n], m, s.now, Turns(steps[..n], WorkerOf(m)));
    }
  }

  // ------------------------------------------------------------------ what a passing receipt promises

  /** What the receipt says: the follow-up request started before the interrupted stream completed, if it completed at all. */
  predicate ReceiptHolds(s: State) {
    s.main.Passed? && (s.completed.writes == 1 ==> s.main.followup < s.completed.value)
  }

  /** The stream worker has no sleep left before it completes. */
  predicate PastSleeps(pc: Pc, now: nat) {
    match pc
    case Event(k) => CLOSING_EVENT <= k
    case Asleep(k, until) => k == CLOSING_EVENT && until <= now
    case TakeDone => true
    case StoreDone(_) => true
    case _ => false
  }

  /**
   A completion time that is not after the follow-up can still be stored: one is already taken,
   or the worker can take one without another sleep while the clock shows the follow-up time.
   */
  predicate MayTie(s: State) {
    s.main.Passed? &&
    var pc := PcOf(s, 0);
    if pc.StoreDone? then pc.t <= s.main.followup else PastSleeps(pc, s.now) && s.now <= s.main.followup
  }

  /** A step of the stream worker stores no completion time up to the follow-up and comes no closer to one. */
  lemma ReceiptStreamStep(s: State, ok: bool)
    requires Invariant(s) && ReceiptHolds(s) && !MayTie(s) && 0 < |s.workers| && s.now < UNSET_MS
    ensures ReceiptHolds(WorkerStep(s, 0, ok)) && !MayTie(WorkerStep(s, 0, ok))
  {
    assert PcFits(0, s.workers[0].pc) && s.workers[0].index == 0;
    assert PcOf(s, 0) == s.workers[0].pc;
  }

  lemma ReceiptStep(s: State, step: Step)
    requires Invariant(s) && ReceiptHolds(s) && !MayTie(s)
    requires Apply(s, step).now < UNSET_MS
    ensures ReceiptHolds(Apply(s, step)) && !MayTie(Apply(s, step))
  {
    CellsSetOnce(s);
    if step.Work? && step.w < |s.workers| {
      WorkerFrame(s, step.w, step.ok);
      if step.w == 0 {
        ReceiptStreamStep(s, step.ok);
      } else {
        assert PcOf(Apply(s, step), 0) == PcOf(s, 0);
      }
    } else if step.Tick? {
      ReceiptTick(s);
    }
  }

  /** The follow-up is in the past, so the clock cannot come back to it. */
  lemma ReceiptTick(s: State)
    requires Invariant(s) && ReceiptHolds(s) && !MayTie(s) && s.now + 1 < UNSET_MS
    ensures ReceiptHolds(Apply(s, Tick)) && !MayTie(Apply(s, Tick))
  {
    assert s.main.followup <= s.now;
  }

  lemma {:induction false} ReceiptStaysTrue(s: State, steps: seq<Step>)
    requires Invariant(s) && ReceiptHolds(s) && !MayTie(s)
    requires Run(s, steps).now < UNSET_MS
    ensures ReceiptHolds(Run(s, steps)) && !MayTie(Run(s, steps))
  {
    if steps != [] {
      var before := steps[..|steps| - 1];
      assert Run(s, before).now <= Run(s, steps).now;
      ReceiptStaysTrue(s, before);
      RunKeepsInvariant(s, before);
      ReceiptStep(Run(s, before), steps[|steps| - 1]);
    }
  }

  /** How many successful steps a stream worker without sleeps ahead is away from its end. */
  function StepsLeft(pc: Pc): nat {
    match pc
    case Asleep(_, _) => STREAM_EVENTS - CLOSING_EVENT + 3
    case Event(k) => if CLOSING_EVENT <= k < STREAM_EVENTS then STREAM_EVENTS - k + 2 else 0
    case TakeDone => 2
    case StoreDone(_) => 1
    case _ => 0
  }

  lemma StreamWorkerAdvances(s: State)
    requires Invariant(s) && 0 < |s.workers| && PastSleeps(PcOf(s, 0), s.now)
    ensures
      var s', pc := Apply(s, Work(0, true)), PcOf(s, 0);
      && s'.now == s.now && s'.main == s.main && |s'.workers| == |s.workers|
      && StepsLeft(PcOf(s', 0)) < StepsLeft(pc)
      && (pc.TakeDone? ==> PcOf(s', 0) == StoreDone(ElapsedMs(s.now)))
      && (pc.StoreDone? ==> s'.completed == Cell(pc.t, 1))
      && (!pc.StoreDone? ==> PastSleeps(PcOf(s', 0), s.now))
      && (PcOf(s', 0).StoreDone? ==> PcOf(s', 0).t == ElapsedMs(s.now))
  {
    assert PcFits(0, s.workers[0].pc) && s.workers[0].index == 0;
  }

  /** Once its sleeps are over, the stream worker can complete while the clock stands still. */
  lemma {:induction false} StreamCanComplete(s: State) returns (steps: seq<Step>)
    requires Invariant(s) && 0 < |s.workers| && PastSleeps(PcOf(s, 0), s.now)
    ensures
      var s' := Run(s, steps);
      && s'.now == s.now && s'.main == s.main
      && s'.completed == Cell(if PcOf(s, 0).StoreDone? then PcOf(s, 0).t else ElapsedMs(s.now), 1)
    decreases StepsLeft(PcOf(s, 0))
  {
    var next := Apply(s, Work(0, true));
    StreamWorkerAdvances(s);
    StepKeepsInvariant(s, Work(0, true));
    RunOne(s, Work(0, true));
    if PcOf(s, 0).StoreDone? {
      steps := [Work(0, true)];
    } else {
      var rest := StreamCanComplete(next);
      RunAppend(s, [Work(0, true)], rest);
      steps := [Work(0, true)] + rest;
    }
  }

  /**
   A receipt that passed stays true in every continuation of the run exactly when no completion
   time up to the follow-up can be stored any more.
   */
  lemma ReceiptIsFinal(s: State)
    requires Reachable(s) && s.now < UNSET_MS && ReceiptHolds(s)
    ensures (forall steps :: Run(s, steps).now < UNSET_MS ==> ReceiptHolds(Run(s, steps))) <==> !MayTie(s)
  {
    var past :| s == Run(INITIAL, past);
    RunKeepsInvariant(INITIAL, past);
    if MayTie(s) {
      var steps := StreamCanComplete(s);
      assert !ReceiptHolds(Run(s, steps));
    } else {
      forall steps | Run(s, steps).now < UNSET_MS ensures ReceiptHolds(Run(s, steps)) {
        ReceiptStaysTrue(s, steps);
      }
    }
  }

  /** Once the clock has passed the follow-up, only an older time already taken can spoil the receipt. */
  lemma FinalAfterTheTick(s: State)
    requires Reachable(s) && s.now < UNSET_MS && ReceiptHolds(s) && s.main.followup < s.now
    ensures (forall steps :: Run(s, steps).now < UNSET_MS ==> ReceiptHolds(Run(s, steps)))
      <==> !(PcOf(s, 0).StoreDone? && PcOf(s, 0).t <= s.main.followup)
  {
    ReceiptIsFinal(s);
  }

  /**
   A follow-up that starts before the sleeps of the stream could have passed leaves nothing to
   chance: its receipt is final, wherever the workers stand.
   */
  lemma EarlyFollowupIsFinal(s: State, steps: seq<Step>)
    requires Reachable(s) && ReceiptHolds(s) && s.main.followup < s.started.value + STREAM_SLEEP_MS
    requires Run(s, steps).now < UNSET_MS
    ensures ReceiptHolds(Run(s, steps))
  {
    var past :| s == Run(INITIAL, past);
    RunKeepsInvariant(INITIAL, past);
    ClockNeverGoesBack(s, steps);
    ReceiptStaysTrue(s, steps);
  }

  lemma {:induction false} ClockNeverGoesBack(s: State, steps: seq<Step>)
    ensures s.now <= Run(s, steps).now
  {
    if steps != [] {
      ClockNeverGoesBack(s, steps[..|steps| - 1]);
    }
  }

  // ------------------------------------------------------------------ the race is real

  lemma {:induction false} RunAppend(s: State, a: seq<Step>, b: seq<Step>)
    ensures Run(s, a + b) == Run(Run(s, a), b)
  {
    if b == [] {
      assert a + b == a;
    } else {
      assert (a + b)[..|a + b| - 1] == a + b[..|b| - 1];
      RunAppend(s, a, b[..|b| - 1]);
    }
  }

  lemma RunOne(s: State, step: Step)
    ensures Run(s, [step]) == Apply(s, step)
  {
    assert [step][..0] == [];
  }

  lemma ExtendRun(from: State, steps: seq<Step>, step: Step) returns (longer: seq<Step>)
    ensures longer == steps + [step] && Run(from, longer) == Apply(Run(from, steps), step)
  {
    longer := steps + [step];
    RunAppend(from, steps, [step]);
    RunOne(Run(from, steps), step);
  }

  lemma {:induction false} TicksPass(s: State, n: nat) returns (steps: seq<Step>)
    ensures Run(s, steps) == s.(now := s.now + n)
  {
    if n == 0 {
      steps := [];
    } else {
      steps := TicksPass(s, n - 1);
      steps := ExtendRun(s, steps, Tick);
    }
  }

  /** The state in which only the stream worker and the clock have moved on. */
  function StreamAt(s: State, pc: Pc, now: nat): State
    requires 0 < |s.workers|
  {
    Move(s, 0, pc).(now := now)
  }

  lemma SleepPasses(s: State, k: nat, until: nat) returns (steps: seq<Step>)
    requires 0 < |s.workers| && PcOf(s, 0) == Asleep(k, until) && s.now <= until
    ensures Run(s, steps) == StreamAt(s, Event(k), until)
  {
    steps := TicksPass(s, until - s.now);
    steps := ExtendRun(s, steps, Work(0, true));
  }

  lemma ChunkPasses(s: State, k: nat) returns (steps: seq<Step>)
    requires 0 < |s.workers| && s.workers[0].index == 0 && PcOf(s, 0) == Event(k) && LEAD_EVENTS <= k < CLOSING_EVENT
    ensures Run(s, steps) == StreamAt(s, Event(k + 1), s.now + STREAM_CHUNK_DELAY_MS)
  {
    var asleep := Apply(s, Work(0, true));
    RunOne(s, Work(0, true));
    var rest := SleepPasses(asleep, k + 1, s.now + STREAM_CHUNK_DELAY_MS);
    RunAppend(s, [Work(0, true)], rest);
    steps := [Work(0, true)] + rest;
    MovedTwice(s, asleep.workers[0].pc, Event(k + 1));
  }

  lemma MovedTwice(s: State, first: Pc, second: Pc)
    requires 0 < |s.workers|
    ensures Move(Move(s, 0, first), 0, second) == Move(s, 0, second)
  {
    assert Move(Move(s, 0, first), 0, second).workers == Move(s, 0, second).workers;
  }

  lemma {:induction false} ChunksPass(s: State, n: nat) returns (steps: seq<Step>)
    requires 0 < |s.workers| && s.workers[0].index == 0 && PcOf(s, 0) == Event(LEAD_EVENTS) && n <= STREAM_CHUNKS
    ensures Run(s, steps) == StreamAt(s, Event(LEAD_EVENTS + n), s.now + n * STREAM_CHUNK_DELAY_MS)
  {
    if n == 0 {
      steps := [];
      assert Move(s, 0, Event(LEAD_EVENTS)).workers == s.workers;
    } else {
      var before := ChunksPass(s, n - 1);
      steps := OneMoreChunk(s, LEAD_EVENTS + n - 1, s.now + (n - 1) * STREAM_CHUNK_DELAY_MS, before);
    }
  }

  lemma OneMoreChunk(s: State, k: nat, now: nat, before: seq<Step>) returns (steps: seq<Step>)
    requires 0 < |s.workers| && s.workers[0].index == 0 && LEAD_EVENTS <= k < CLOSING_EVENT
    requires Run(s, before) == StreamAt(s, Event(k), now)
    ensures Run(s, steps) == StreamAt(s, Event(k + 1), now + STREAM_CHUNK_DELAY_MS)
  {
    var more := ChunkPasses(Run(s, before), k);
    RunAppend(s, before, more);
    steps := before + more;
    MovedTwice(s, Event(k), Event(k + 1));
  }

  /** The stream alone has been accepted, started at zero and stands at `pc`. */
  function StreamAlone(now: nat, pc: Pc): State {
    State(now, 1, [Worker(0, pc)], Cell(0, 1), FRESH, FRESH, FRESH, false, Waiting)
  }

  lemma StreamOpens() returns (steps: seq<Step>)
    ensures Run(INITIAL, steps) == StreamAlone(0, Event(0))
  {
    steps := ExtendRun(INITIAL, [], Accept);
    steps := ExtendRun(INITIAL, steps, Work(0, true));
    steps := ExtendRun(INITIAL, steps, Work(0, true));
    steps := ExtendRun(INITIAL, steps, Work(0, true));
    steps := ExtendRun(INITIAL, steps, Work(0, true));
  }

  lemma OpeningEvents(steps: seq<Step>) returns (longer: seq<Step>)
    requires Run(INITIAL, steps) == StreamAlone(0, Event(0))
    ensures Run(INITIAL, longer) == StreamAlone(0, Asleep(LEAD_EVENTS, LEAD_DELAY_MS))
  {
    longer := ExtendRun(INITIAL, steps, Work(0, true));
    longer := ExtendRun(INITIAL, longer, Work(0, true));
    longer := ExtendRun(INITIAL, longer, Work(0, true));
  }

  /** After exactly its sleeps the stream has only its closing events to send. */
  lemma StreamComesToItsEnd() returns (steps: seq<Step>)
    ensures Run(INITIAL, steps) == StreamAlone(STREAM_SLEEP_MS, Event(CLOSING_EVENT))
  {
    steps := StreamOpens();
    steps := OpeningEvents(steps);
    var sleep := SleepPasses(Run(INITIAL, steps), LEAD_EVENTS, LEAD_DELAY_MS);
    RunAppend(INITIAL, steps, sleep);
    steps := steps + sleep;
    assert Run(INITIAL, steps) == StreamAlone(LEAD_DELAY_MS, Event(LEAD_EVENTS));
    var chunks := ChunksPass(Run(INITIAL, steps), STREAM_CHUNKS);
    RunAppend(INITIAL, steps, chunks);
    steps := steps + chunks;
  }

  lemma ClosingEvents(steps: seq<Step>) returns (longer: seq<Step>)
    requires Run(INITIAL, steps) == StreamAlone(STREAM_SLEEP_MS, Event(CLOSING_EVENT))
    ensures Run(INITIAL, longer) == StreamAlone(STREAM_SLEEP_MS + 1, StoreDone(STREAM_SLEEP_MS))
  {
    longer := ExtendRun(INITIAL, steps, Work(0, true));
    longer := ExtendRun(INITIAL, longer, Work(0, true));
    longer := ExtendRun(INITIAL, longer, Work(0, true));
    longer := ExtendRun(INITIAL, longer, Work(0, true));
    longer := ExtendRun(INITIAL, longer, Tick);
  }

  /** A second connection has come in and its worker stands at `pc`. */
  function WithFollowup(now: nat, stream: Pc, followup: Cell, pc: Pc, acked: bool): State {
    State(now, 2, [Worker(0, stream), Worker(1, pc)], Cell(0, 1), FRESH, FRESH, followup, acked, Waiting)
  }

  lemma FollowupStarts(now: nat, stream: Pc) returns (steps: seq<Step>)
    requires now < UNSET_MS
    ensures Run(StreamAlone(now, stream), steps) == WithFollowup(now, stream, Cell(now, 1), Event(0), false)
  {
    var s := StreamAlone(now, stream);
    steps := ExtendRun(s, [], Accept);
    steps := ExtendRun(s, steps, Work(1, true));
    steps := ExtendRun(s, steps, Work(1, true));
    steps := ExtendRun(s, steps, Work(1, true));
    steps := ExtendRun(s, steps, Work(1, true));
  }

  lemma AcknowledgementIsSent(now: nat, stream: Pc) returns (steps: seq<Step>)
    ensures Run(WithFollowup(now, stream, Cell(now, 1), Event(0), false), steps)
      == WithFollowup(now, stream, Cell(now, 1), Event(ACK_EVENT + 1), true)
  {
    var s := WithFollowup(now, stream, Cell(now, 1), Event(0), false);
    steps := ExtendRun(s, [], Work(1, true));
    steps := ExtendRun(s, steps, Work(1, true));
    steps := ExtendRun(s, steps, Work(1, true));
  }

  lemma ReceiptPasses(now: nat, stream: Pc) returns (steps: seq<Step>)
    requires now < UNSET_MS
    ensures Run(WithFollowup(now, stream, Cell(now, 1), Event(ACK_EVENT + 1), true), steps)
      == WithFollowup(now, stream, Cell(now, 1), Event(ACK_EVENT + 1), true).(main := Passed(2, now, UNSET_MS))
  {
    var s := WithFollowup(now, stream, Cell(now, 1), Event(ACK_EVENT + 1), true);
    steps := ExtendRun(s, [], MainLoad);
    steps := ExtendRun(s, steps, MainLoad);
    steps := ExtendRun(s, steps, MainLoad);
  }

  /** The follow-up starts, is acknowledged and the receipt passes, all within one millisecond. */
  lemma FollowupThenReceipt(past: seq<Step>, now: nat, stream: Pc) returns (s: State)
    requires Run(INITIAL, past) == StreamAlone(now, stream) && now < UNSET_MS
    ensures Reachable(s)
    ensures s == WithFollowup(now, stream, Cell(now, 1), Event(ACK_EVENT + 1), true).(main := Passed(2, now, UNSET_MS))
  {
    var start := FollowupStarts(now, stream);
    RunAppend(INITIAL, past, start);
    var ack := AcknowledgementIsSent(now, stream);
    RunAppend(INITIAL, past + start, ack);
    var pass := ReceiptPasses(now, stream);
    RunAppend(INITIAL, past + start + ack, pass);
    s := Run(INITIAL, past + start + ack + pass);
  }

  /** There is a run whose receipt passes although a completion time earlier than the follow-up is about to be stored. */
  lemma StaleCompletionIsReachable() returns (s: State)
    ensures Reachable(s) && s.now < UNSET_MS && ReceiptHolds(s) && MayTie(s)
    ensures PcOf(s, 0) == StoreDone(s.started.value + STREAM_SLEEP_MS) && PcOf(s, 0).t < s.main.followup
  {
    var steps := StreamComesToItsEnd();
    steps := ClosingEvents(steps);
    s := FollowupThenReceipt(steps, STREAM_SLEEP_MS + 1, StoreDone(STREAM_SLEEP_MS));
  }

  /** There is a run whose receipt passes in the very millisecond in which the stream has slept enough and can complete. */
  lemma TieIsReachable() returns (s: State)
    ensures Reachable(s) && s.now < UNSET_MS && ReceiptHolds(s) && MayTie(s)
    ensures PcOf(s, 0) == Event(CLOSING_EVENT) && s.now == s.main.followup == s.started.value + STREAM_SLEEP_MS
  {
    var steps := StreamComesToItsEnd();
    s := FollowupThenReceipt(steps, STREAM_SLEEP_MS, Event(CLOSING_EVENT));
  }
}

/** The assessment orchestrator as a pure state machine. An `Engine` value
    holds what the hook keeps in refs: the item map keyed by fingerprint id,
    the id of the current question, the time of the last admitted analysis
    and the log of events emitted so far. `AfterAnalysis`, `AfterTick` and
    `AfterStop` are the state after one call of `analyzeCurrentFrame`,
    `tick` and `stopCapture`. */
module Engine {
  import opened Types
  import opened Voting
  import Crypto

  /** Minimum time between two admitted analyses. */
  const RateLimitMs: int := 8000
  /** Oracle confidence below which a frame is ignored. */
  const LowConfidenceFloor: real := 0.3
  /** Oracle confidence from which a single vote finalises its question. */
  const HighConfidenceThreshold: real := 0.85
  /** The answer id the oracle uses when it sees no question. */
  const NoQuestion: string := "NO_QUESTION"
  /** The stem used when the oracle reports no question text. */
  const UnknownQuestion: string := "Unknown question"

  datatype Engine = Engine(
    items: map<string, ItemState>,
    current: Option<string>,
    lastAnalysis: int,
    events: seq<AppEvent>)

  /** The refs as the hook creates them. */
  function Initial(): Engine
  {
    Engine(map[], None, 0, [])
  }

  /** One call of `analyzeCurrentFrame` as seen from outside: whether a
      video element is mounted, the clock on entry, whether a frame could be
      captured, how the awaited oracle call ended and the clock when the vote
      is stamped. */
  datatype Frame = Frame(videoPresent: bool, now: int, captured: bool, oracle: OracleOutcome, voteTs: int)

  /** JavaScript truthiness of the current-id ref: null and "" are falsy. */
  predicate Truthy(id: Option<string>)
  {
    id.Some? && id.value != ""
  }

  /** `emit` appends to the event log; the last entry is what is shown. */
  function Emit(e: Engine, ev: AppEvent): Engine
  {
    e.(events := e.events + [ev])
  }

  /** The event the hook's `event` state holds: the last one emitted, or
      the initial idle status. */
  function Shown(e: Engine): AppEvent
  {
    if e.events == [] then StatusEvent(IdleStatus) else e.events[|e.events| - 1]
  }

  function Put(e: Engine, id: string, st: ItemState): Engine
  {
    e.(items := e.items[id := st])
  }

  // ---------------------------------------------------------------------
  // analyzeCurrentFrame
  // ---------------------------------------------------------------------

  /** Whether the call gets past the video check and the rate limiter. */
  predicate Admits(e: Engine, f: Frame)
  {
    f.videoPresent && f.now - e.lastAnalysis >= RateLimitMs
  }

  /** `confidence < 0.3` as JavaScript evaluates it: a value that is not a
      number is coerced first, and one that coerces to NaN compares false. */
  predicate BelowFloor(c: Confidence)
  {
    match c
    case Number(v) => v < LowConfidenceFloor
    case NotNumber(n) => n.Some? && n.value < LowConfidenceFloor
  }

  /** No question on screen, or an answer too unsure to use. */
  predicate Skipped(r: AnalysisResult)
  {
    r.answerId == NoQuestion || BelowFloor(r.confidence)
  }

  /** The stem the fingerprint is computed from. */
  function QuestionOf(r: AnalysisResult): string
  {
    if r.questionText == "" then UnknownQuestion else r.questionText
  }

  function FingerprintOf(sha1: string -> seq<Byte>, r: AnalysisResult): Fingerprint
  {
    Crypto.GenerateFingerprint(sha1, QuestionOf(r), r.options)
  }

  function NewItem(fp: Fingerprint): ItemState
  {
    ItemState(fp, [], Idle, None, None, false)
  }

  /** `oldState?.abortController?.abort()` for the current item. */
  function AbortCurrent(e: Engine): Engine
  {
    if Truthy(e.current) && e.current.value in e.items && e.items[e.current.value].abortController.Some? then
      var st := e.items[e.current.value];
      Put(e, e.current.value, st.(abortController := Some(AbortHandle(true))))
    else e
  }

  /** The engine after a step, and whether the call goes on. */
  datatype Step = Step(engine: Engine, go: bool)

  /** Switching to the detected question: abort the old one, make the new
      one current, and either add it as a fresh item announcing `reading`,
      or replay its cached final answer when it was already finalised. A
      finalised item without a cached answer makes `best!` throw; the outer
      handler swallows that and the call ends. */
  function SwitchTo(e: Engine, fp: Fingerprint): Step
  {
    if e.current == Some(fp.id) then Step(e, true)
    else
      var e1 := AbortCurrent(e).(current := Some(fp.id));
      if fp.id !in e1.items then
        Step(Emit(Put(e1, fp.id, NewItem(fp)), StatusEvent(ReadingStatus)), true)
      else
        var st := e1.items[fp.id];
        if st.status != Finalized then Step(e1, true)
        else if st.best.None? then Step(e1, false)
        else
          var b := st.best.value;
          Step(Emit(e1, FinalizedEvent(b.answerId, b.confidence, b.instruction, fp.id)), true)
  }

  /** The vote a valid result becomes. */
  function VoteOf(r: AnalysisResult, ts: int): Vote
    requires r.confidence.Number?
  {
    Vote(r.answerId, r.confidence.value, r.instruction, r.justification, ts)
  }

  /** Recording the result on the item: nothing for a finalised or busy
      item; otherwise mark it reading with a fresh controller, drop a result
      without an answer id or numeric confidence, else append the vote and
      either finalise on it (confidence at least 0.85) or announce
      `proposing`. The `finally` block clears `isAsking` on every path. */
  function Ingest(e: Engine, id: string, r: AnalysisResult, ts: int): Engine
  {
    if id !in e.items then e
    else
      var st := e.items[id];
      if st.status == Finalized || st.isAsking then e
      else
        var asking := st.(status := Reading, isAsking := true, abortController := Some(AbortHandle(false)));
        if r.answerId == "" || r.confidence.NotNumber? then Put(e, id, asking.(isAsking := false))
        else
          var v := VoteOf(r, ts);
          var voted := asking.(votes := asking.votes + [v]);
          if v.confidence >= HighConfidenceThreshold then
            var b := Best(v.answerId, v.confidence, v.instruction);
            var done := voted.(status := Finalized, best := Some(b));
            Emit(Put(e, id, done.(isAsking := false)), FinalizedEvent(b.answerId, b.confidence, b.instruction, done.fingerprint.id))
          else
            Emit(Put(e, id, voted.(isAsking := false)), StatusEvent(ProposingStatus))
  }

  /** Following the question with fingerprint `fp` and recording the
      result on it. */
  function Handle(e: Engine, fp: Fingerprint, r: AnalysisResult, ts: int): Engine
  {
    var s := SwitchTo(e, fp);
    if s.go then Ingest(s.engine, fp.id, r, ts) else s.engine
  }

  /** What happens once the oracle has answered. */
  function AfterResult(e: Engine, sha1: string -> seq<Byte>, r: AnalysisResult, ts: int): Engine
  {
    if Skipped(r) then e else Handle(e, FingerprintOf(sha1, r), r, ts)
  }

  /** One whole call of `analyzeCurrentFrame`. A rejected oracle call ends
      in the outer handler with nothing but the clock updated. */
  function AfterAnalysis(e: Engine, f: Frame, sha1: string -> seq<Byte>): Engine
  {
    if !Admits(e, f) then e
    else
      var e1 := e.(lastAnalysis := f.now);
      if !f.captured || f.oracle.Threw? then e1
      else AfterResult(e1, sha1, f.oracle.result, f.voteTs)
  }

  // ---------------------------------------------------------------------
  // tick and stopCapture
  // ---------------------------------------------------------------------

  /** One `tick`: only a current item that is reading and whose window is
      ripe is looked at; it is finalised when the window's verdict says so. */
  function AfterTick(e: Engine, now: int): Engine
  {
    if !Truthy(e.current) || e.current.value !in e.items then e
    else
      var id := e.current.value;
      var st := e.items[id];
      if st.status != Reading then e
      else
        var w := Window(st.votes);
        if !Ripe(w, now) then e
        else
          match Decide(w)
          case None => e
          case Some(b) =>
            Emit(Put(e, id, st.(status := Finalized, best := Some(b))),
                 FinalizedEvent(b.answerId, b.confidence, b.instruction, st.fingerprint.id))
  }

  /** `stopCapture`: abort the current item, forget every item and the
      current id, and announce `idle`. The clock of the last analysis is
      kept. */
  function AfterStop(e: Engine): Engine
  {
    Emit(AbortCurrent(e).(items := map[], current := None), StatusEvent(IdleStatus))
  }
}

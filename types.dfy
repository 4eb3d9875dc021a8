/** The data model of the assessment orchestrator: fingerprints, oracle
    answers, votes, per-question item state and the events the engine emits. */
module Types {

  datatype Option<+T> = None | Some(value: T)

  /** A byte of a digest. */
  type Byte = x: int | 0 <= x < 256

  /** One answer option as the question shows it. */
  datatype OptionEntry = OptionEntry(id: string, text: string)

  /** The identity of a question: `id` is the hash of the normalised stem and
      options, `ocrHash` the hash of the raw stem and options. */
  datatype Fingerprint = Fingerprint(id: string, ocrHash: string)

  /** A vote carries the fields of an oracle answer (`LlmAnswer`) plus the
      time (ms) at which it was recorded. `confidence` is documented to lie
      in 0..1 and `instruction` to be at most 15 words (empty for plain
      multiple-choice or numeric answers); nothing in the engine enforces
      either. */
  datatype Vote = Vote(answerId: string, confidence: real, instruction: string, justification: string, ts: int)

  datatype ItemStatus = Idle | Reading | Finalized

  /** The cached final answer of a question. */
  datatype Best = Best(answerId: string, confidence: real, instruction: string)

  /** The abort controller attached to an item; only whether abort() was called. */
  datatype AbortHandle = AbortHandle(aborted: bool)

  /** Per-question state, keyed by fingerprint id in the item map. */
  datatype ItemState = ItemState(
    fingerprint: Fingerprint,
    votes: seq<Vote>,
    status: ItemStatus,
    best: Option<Best>,
    abortController: Option<AbortHandle>,
    isAsking: bool)

  datatype StatusKind = IdleStatus | ReadingStatus | ProposingStatus

  /** Exactly one of a status event or a finalized event. */
  datatype AppEvent =
    | StatusEvent(status: StatusKind)
    | FinalizedEvent(answerId: string, confidence: real, instruction: string, fingerprintId: string)

  /** The oracle's `confidence` field as the payload carries it: a number,
      or any other value. For the latter, `coerced` is what a relational
      comparison turns it into: 0 for `null`, `false`, `""` and `[]`, 1 for
      `true`, the value of a numeric string, and `None` where the coercion
      yields NaN (absent, an object, a non-numeric string), which every
      comparison rejects. */
  datatype Confidence = Number(value: real) | NotNumber(coerced: Option<real>)

  /** The result the oracle call resolves to. Absent `questionText` is the
      empty string, absent `options` the empty list. */
  datatype AnalysisResult = AnalysisResult(
    answerId: string,
    confidence: Confidence,
    instruction: string,
    justification: string,
    questionText: string,
    options: seq<OptionEntry>)

  /** How the awaited oracle call ended: with a result, or by throwing
      (network failure, malformed output, cancellation). */
  datatype OracleOutcome = Answered(result: AnalysisResult) | Threw
}

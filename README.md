# Assessment orchestrator, modelled in Dafny

This project models the core of the assessment assistant. The core is the
`useAssessmentOrchestrator` hook, and the fingerprinting in `utils/crypto.ts`
that the hook relies on.

The hook polls a video feed. An oracle (a vision model) reads each frame and
returns:
- the question on screen, with its options;
- a proposed answer and a confidence.

The hook groups these answers by question. Each question is identified by a
fingerprint: a SHA-1 of the normalised stem plus the options sorted by id.
The hook keeps a per-question item holding votes, a status and a cached best
answer. It emits `status` and `finalized` events for the teleprompter.

A question is finalised in one of two ways:
- at once, on a single answer with confidence at least 0.85;
- later, by `tick`. It looks at the last three votes and applies a quorum
  and a mean-confidence threshold of 0.7.

## How the model is organised

The modules follow the source files:
- `types.dfy` (module `Types`) holds the records of `types.ts`, together
  with the oracle's result and outcome.
- `crypto.dfy` (module `Crypto`) covers `generateFingerprint` and the hex
  rendering of the SHA-1 digest:
  - `trim()`, ASCII `toLowerCase()`, the stable sort of the options by id,
    the `id:text` rendering, the `|` and `::` joins;
  - the `JSON.stringify` raw key;
  - the two-hex-digits-per-byte rendering.

  SHA-1 itself is a parameter, `sha1: string -> seq<Byte>`.
- `voting.dfy` (module `Voting`) holds the finalisation policy of `tick`.
  It covers the three-vote window, its ripeness and the grouping by answer,
  in first-seen order as a JavaScript `Map` keeps it. It also covers:
  - the winner: the largest group, first seen on ties, because the sort is
    stable;
  - the mean confidence;
  - the most confident vote, the earliest on ties.

  Each of these has a reference definition, proved equal to the
  `Map`-based tally.
- `engine.dfy` (module `Engine`) describes one call of the hook as a pure
  function on a value `Engine`. That value holds:
  - the item map;
  - the current fingerprint id;
  - the rate limiter's clock;
  - the log of emitted events.

  The functions are `AfterAnalysis` for `analyzeCurrentFrame`, `AfterTick`
  for `tick` and `AfterStop` for `stopCapture`.
- `invariant.dfy` (module `Invariant`) defines the invariant `ValidEngine`
  and proves that every entry point preserves it.
- `properties.dfy` (module `Properties`) proves what one call does: the rate
  limiter, the question switch and replay, vote recording and the fast path,
  and what `tick` may and may not change.
- `trace.dfy` (module `Trace`) covers arbitrary sequences of calls. Along
  every run:
  - the invariant holds;
  - the event log only grows;
  - admitted analyses are at least 8 s apart.
- `orchestrator.dfy` (module `Orchestrator`) is the hook's refs as a class.
  The fields are the same four and are updated step by step as the hook does.
  Each method is proved to reach exactly the state the matching `Engine`
  function describes.

`emit` is an append to the event log. The event the UI shows is the last
entry of the log (`Engine.Shown`).

Awaited calls are inputs of the call:
- the clock is `now`, plus a separate `voteTs` for the `Date.now()` that
  stamps the vote;
- the frame capture is `captured`;
- the oracle's answer or rejection is `oracle`.

## Model

| member | source | states |
|---|---|---|
| Crypto.TrimStart | utils/crypto.ts:12 | the result is a suffix of the input, every removed character is ECMAScript whitespace, and the result does not start with whitespace |
| Crypto.TrimEnd | utils/crypto.ts:12 | the result is a prefix of the input, every removed character is whitespace, and the result does not end with whitespace |
| Crypto.LowerChar | utils/crypto.ts:12 | an ASCII upper-case letter becomes its lower-case letter (code point + 32), every other character is left as it is; hence whitespace stays whitespace and no upper-case ASCII letter remains |
| Crypto.ToLower | utils/crypto.ts:15 | same length, and each character is lower-cased on its own |
| Crypto.TrimIgnoresPadding | utils/crypto.ts:12 | whitespace added around a string does not survive `trim()` |
| Crypto.NormalizeIgnoresCase | utils/crypto.ts:12 | texts that agree after lower-casing normalise alike (trimming and lower-casing commute) |
| Crypto.SortByIdCorrect | utils/crypto.ts:13-14 | the sort on a copy yields options ordered by id, a permutation of the input, and keeps the input order among equal ids (stable) |
| Crypto.SortedUnique | utils/crypto.ts:13-14 | two id-sorted lists with the same elements and distinct ids are equal |
| Crypto.SortByIdPermutationInvariant | utils/crypto.ts:13-14 | with distinct ids, any arrangement of the same options sorts to the same list |
| Crypto.PaddedCaseVariant | utils/crypto.ts:12-15 | a text that differs from another only in surrounding whitespace and ASCII letter case has the same `trim().toLowerCase()` |
| Crypto.SortAlike | utils/crypto.ts:13-14 | the sort compares ids only: two option lists that agree position by position on the ids (and on any per-option key) sort to lists that still agree position by position |
| Crypto.OptionTextVariantsShareId | utils/crypto.ts:13-19 | options that agree position by position on the id and on the trimmed, lower-cased text give the same combined string and the same fingerprint id, so the case and padding of option texts do not matter |
| Crypto.RenderKeepsIdAsGiven | utils/crypto.ts:15 | option ids are not normalised: ids of equal length that differ give different renderings |
| Crypto.OptionOrderIgnored | utils/crypto.ts:13-19 | with distinct option ids, the order of the options does not change the combined string nor the fingerprint id |
| Crypto.StemVariantsShareId | utils/crypto.ts:12-19 | stems that differ only in surrounding whitespace and ASCII letter case get the same fingerprint id |
| Crypto.TwoPlusTwoExample | utils/crypto.ts:12-20 | for "2+2=?" with options A "3" and B "4", both orders give the combined string `2+2=?::A:3\|B:4`, while the raw keys differ |
| Crypto.RawKeyOrderMatters | utils/crypto.ts:20 | the raw key keeps the options in the order given and does not sort them: for any stem and texts, two options with different one-character ids give different raw keys in the two orders |
| Crypto.DelimiterInTextCollides | utils/crypto.ts:15-18 | an option whose text contains `\|b:` yields the same combined string as two separate options, so the fingerprint id can collide |
| Crypto.Hex | utils/crypto.ts:7-8 | the rendering has two characters per byte, all lower-case hex digits |
| Crypto.HexRoundTrip | utils/crypto.ts:7-8 | decoding the hex rendering gives back the digest bytes |
| Crypto.HexInjective | utils/crypto.ts:7-8 | different digests give different hex strings |
| Crypto.FingerprintIdShape | utils/crypto.ts:11-22 | the fingerprint id is twice as long as the digest of the combined string, and distinct digests give distinct ids |
| Voting.Window | hooks/useAssessmentOrchestrator.ts:193 | the window is the last min(3, n) votes |
| Voting.TallyFacts | hooks/useAssessmentOrchestrator.ts:209-215 | the `Map` tally has one group per distinct answer, in first-seen order; each group holds exactly that answer's votes, in window order, with a matching count |
| Voting.TallyGroups | hooks/useAssessmentOrchestrator.ts:209-215 | group i is the i-th answer first seen, and its votes are the non-empty filter of the window on that answer |
| Voting.CountVotes | hooks/useAssessmentOrchestrator.ts:209-215 | the loop over the window builds exactly the tally |
| Voting.WinnerIndex | hooks/useAssessmentOrchestrator.ts:217 | the chosen group has the largest count, and every earlier group has a strictly smaller one (stable sort) |
| Voting.BestIndex | hooks/useAssessmentOrchestrator.ts:228 | the chosen vote has the highest confidence, and every earlier vote a strictly lower one (stable sort) |
| Voting.WinnerVoted | hooks/useAssessmentOrchestrator.ts:217 | the winning answer has at least one vote in the window |
| Voting.WinnerMaximal | hooks/useAssessmentOrchestrator.ts:217 | no answer has more votes in the window than the winner |
| Voting.WinnerFirstOnTies | hooks/useAssessmentOrchestrator.ts:217 | among answers tied with the winner, the winner was seen first |
| Voting.MeanBounds | hooks/useAssessmentOrchestrator.ts:219-233 | the mean confidence lies between any lower bound of the votes and the best vote's confidence |
| Voting.DecideSpec | hooks/useAssessmentOrchestrator.ts:217-233 | the verdict is a best answer exactly when the winner is a non-empty id, has the quorum (1 for a short window, 2 for a full one) and a mean confidence of at least 0.7; that answer carries the mean and the instruction of the most confident vote |
| Voting.ThreeDistinctAnswersNeverFinalize | hooks/useAssessmentOrchestrator.ts:223-225 | a full window with three different answers never finalises |
| Voting.UnanimousWindowFinalizes | hooks/useAssessmentOrchestrator.ts:219-233 | a window voting for one non-empty answer with every confidence at least 0.7 finalises on that answer, with its mean confidence |
| Invariant.InitialValid | hooks/useAssessmentOrchestrator.ts:24-30 | the refs as created satisfy the invariant |
| Invariant.FingerprintIdNonEmpty | utils/crypto.ts:4-8 | with 20-byte SHA-1 digests the fingerprint id has 40 characters |
| Invariant.AbortCurrentValid | hooks/useAssessmentOrchestrator.ts:97-98 | aborting the current item keeps the invariant, changes only that item's controller, and leaves it aborted |
| Invariant.SwitchToSwitched | hooks/useAssessmentOrchestrator.ts:95-126 | after the switch the engine is valid except that the new current item may be fresh; a replay that throws leaves it valid |
| Invariant.IngestValid | hooks/useAssessmentOrchestrator.ts:128-182 | recording the result on the switched-to item restores the invariant |
| Invariant.AnalysisValid | hooks/useAssessmentOrchestrator.ts:45-186 | `analyzeCurrentFrame` keeps the invariant |
| Invariant.DecideBacked | hooks/useAssessmentOrchestrator.ts:228-233 | the answer `tick` caches was proposed by a vote of the window, with that vote's instruction |
| Invariant.TickValid | hooks/useAssessmentOrchestrator.ts:188-243 | `tick` keeps the invariant |
| Invariant.StopValid | hooks/useAssessmentOrchestrator.ts:291-311 | `stopCapture` leaves a valid engine |
| Properties.AnalysisClock | hooks/useAssessmentOrchestrator.ts:46-60 | the clock moves to `now` exactly when a video is present and at least 8000 ms have passed; otherwise nothing changes |
| Properties.NothingToRecord | hooks/useAssessmentOrchestrator.ts:63-83 | no frame, a rejected oracle call, `NO_QUESTION` or a confidence below 0.3 changes only the clock |
| Properties.CoercedConfidence | hooks/useAssessmentOrchestrator.ts:80-83 | a confidence that is not a number is skipped exactly when JavaScript coerces it to a number below 0.3; `null`, `false`, `""` and `[]` coerce to 0, so such a result changes only the clock |
| Properties.AnalysisFollowsQuestion | hooks/useAssessmentOrchestrator.ts:95-126 | a recorded result makes its question current and adds it to the items; other items keep everything but their controller; events are only appended |
| Properties.SwitchAbortsOld | hooks/useAssessmentOrchestrator.ts:97-98 | after a switch, the previously current item holds no live abort controller |
| Properties.NewQuestionAnnounced | hooks/useAssessmentOrchestrator.ts:103-111 | a new question is added under its fingerprint, and `reading` is the first event the call emits |
| Properties.FinalizedReplayed | hooks/useAssessmentOrchestrator.ts:112-131 | returning to a finalised question emits exactly its cached answer under its id and leaves the item unchanged |
| Properties.FinalizedCurrentIgnored | hooks/useAssessmentOrchestrator.ts:95-131 | seeing the current, finalised question again changes only the clock |
| Properties.MissingBestEndsCall | hooks/useAssessmentOrchestrator.ts:112-124 | a finalised item without a cached answer makes the replay throw: the question becomes current, nothing is emitted, and such an engine is never valid |
| Properties.VoteRecorded | hooks/useAssessmentOrchestrator.ts:133-170 | a usable result appends exactly one vote; a confidence ≥ 0.85 finalises on it and shows it, a lower one leaves the item reading and shows `proposing` |
| Properties.InvalidResultNotCounted | hooks/useAssessmentOrchestrator.ts:133-142 | a result without answer id or numeric confidence adds no vote, but leaves the item reading and not asking |
| Properties.AnalysisKeepsHistory | hooks/useAssessmentOrchestrator.ts:95-182 | every item survives an analysis; its votes grow by at most one at the end; a finalised item keeps everything but its controller |
| Properties.TickOnlyFinalizes | hooks/useAssessmentOrchestrator.ts:188-243 | `tick` either changes nothing, or finalises the reading current item on its window's verdict and emits that answer |
| Properties.TickFinalizesIff | hooks/useAssessmentOrchestrator.ts:193-233 | `tick` finalises the reading current item exactly when the window is ripe and its winner is non-empty, has the quorum and a mean of at least 0.7 |
| Properties.SplitWindowWaits | hooks/useAssessmentOrchestrator.ts:209-225 | a full window with three different answers leaves the engine unchanged |
| Properties.AnalysisFinalizedNamesCurrent | hooks/useAssessmentOrchestrator.ts:117-164 | a finalised event emitted by an analysis names the question that is then current |
| Properties.TickFinalizedNamesCurrent | hooks/useAssessmentOrchestrator.ts:234-240 | a finalised event emitted by `tick` names the current question |
| Properties.StopForgets | hooks/useAssessmentOrchestrator.ts:302-310 | stopping forgets all items and the current id, appends `idle`, and keeps the rate limiter's clock |
| Trace.RunValid | hooks/useAssessmentOrchestrator.ts:45-311 | any sequence of analyses, ticks and stops from a valid engine ends valid |
| Trace.RunClock | hooks/useAssessmentOrchestrator.ts:55-60 | after a run the clock is the time of its last admitted analysis, or the starting clock when there was none |
| Trace.AdmittedSpacing | hooks/useAssessmentOrchestrator.ts:55-60 | consecutive admitted analyses of a run are at least 8000 ms apart |
| Trace.AdmittedSpread | hooks/useAssessmentOrchestrator.ts:55-60 | admitted analyses i < j of a run are at least 8000·(j − i) ms apart |
| Trace.RunKeepsEvents | hooks/useAssessmentOrchestrator.ts:33-43 | the event log of a run only grows: earlier events are never rewritten |
| Orchestrator.AssessmentOrchestrator.constructor | hooks/useAssessmentOrchestrator.ts:24-30 | the refs start as the initial engine, which is valid |
| Orchestrator.AssessmentOrchestrator.Emit | hooks/useAssessmentOrchestrator.ts:33-43 | the event is appended and nothing else changes |
| Orchestrator.AssessmentOrchestrator.AbortCurrentItem | hooks/useAssessmentOrchestrator.ts:97-98 | the state becomes `AbortCurrent` of the old one |
| Orchestrator.AssessmentOrchestrator.AnalyzeCurrentFrame | hooks/useAssessmentOrchestrator.ts:45-186 | the state becomes `AfterAnalysis` of the old one, and the invariant is kept |
| Orchestrator.AssessmentOrchestrator.SwitchQuestion | hooks/useAssessmentOrchestrator.ts:95-126 | state and continuation flag are those of `SwitchTo` |
| Orchestrator.AssessmentOrchestrator.Record | hooks/useAssessmentOrchestrator.ts:128-142 | the state becomes `Ingest` of the old one |
| Orchestrator.AssessmentOrchestrator.CastVote | hooks/useAssessmentOrchestrator.ts:144-181 | the vote is appended; a confidence ≥ 0.85 finalises the item on it and emits it, otherwise `proposing` is emitted; `isAsking` is cleared |
| Orchestrator.AssessmentOrchestrator.Tick | hooks/useAssessmentOrchestrator.ts:188-243 | the state becomes `AfterTick` of the old one, and the invariant is kept |
| Orchestrator.AssessmentOrchestrator.Verdict | hooks/useAssessmentOrchestrator.ts:209-233 | the `CountVotes` loop, followed by the winner, mean and best-vote functions, computes `Decide` of the window |
| Orchestrator.AssessmentOrchestrator.StopCapture | hooks/useAssessmentOrchestrator.ts:291-311 | the state becomes `AfterStop` of the old one, which is valid |

## Left out

- SHA-1 and `TextEncoder` are a parameter `sha1`. The digest's 20-byte length is a hypothesis (`Invariant.Sha1Digests`), not something proved. A rejected `crypto.subtle.digest` is not modelled.
- `localeCompare` is replaced by code-point order on ids. Locale collation is not modelled. The two orders agree when every id is an upper-case ASCII letter, or every id is a lower-case ASCII letter, or every id is a decimal digit. They differ on mixed case: `"a".localeCompare("B")` is negative, while code-point order puts `"B"` first, so for ids `a` and `B` the model's combined string differs from the source's.
- `toLowerCase` is modelled for ASCII letters only. Unicode case mapping is not modelled.
- `Crypto.StemVariantsShareId`: stated for ASCII case differences only, because of the restricted `toLowerCase`.
- Confidences are `Confidence` values: a number, or a value of another type together with what the `< 0.3` test at line 80 coerces it to. The following are not modelled:
  - the coercion itself: the coerced value is an input, not computed from a JSON value;
  - a NaN confidence of type number, which passes both tests at lines 80 and 139 and becomes a vote;
  - floating-point rounding of the mean. `Voting.UnanimousWindowFinalizes` holds for reals but not for doubles at the 0.7 boundary: three votes of exactly 0.7 sum to 2.0999999999999996 at line 220, so the mean is 0.6999999999999998 and the source does not finalise, while the lemma says it does.
- The `...analysisResult` spread also copies `questionText` and `options` into the vote. The model's `Vote` keeps only the fields of `types.ts`, since nothing reads the others.
- `lastFinalizedTimeRef` is written at lines 152 and 227 and never read, so it is not modelled.
- `startCapture`, `toggleCapture`, the unmount effect, the capture and tick timers, and the media stream are not modelled. `stopCapture` is modelled only for its effect on the refs and events.
- `ImageCapture.enhanceImageForOCR` is the boolean input `captured`. The oracle call (`analyzeImageForAssessment`) is the input `oracle`. `utils/imageCapture.ts` and `services/geminiService.ts` are not part of this model.
- `emit` is modelled as an append to the log. The `localStorage` broadcast, its timestamp and the console logging are left out.
- `AbortController` is a flag, `aborted`. The signal is never passed to an in-flight request here, so nothing observes it.
- Concurrency is not modelled. A call of `analyzeCurrentFrame` takes effect atomically once its awaits have resolved: the oracle call and the fingerprint. Interleavings are not modelled when a `tick`, `stopCapture` or second analysis runs during those awaits; all of them come before line 128. The `isAsking` test of the guard at line 129 never fires in any execution, interleaved or not: nothing is awaited between setting the flag at line 134 and clearing it at lines 177-181. Only the guard's `FINALIZED` test fires (`Properties.FinalizedCurrentIgnored`). So the flag never keeps a second oracle call off a question; only the 8 s gate at lines 55-60 spaces the calls.
- The `catch` at lines 171-176 is left out: lines 139-170 cannot throw once `state` exists.
- Engine functions (`AfterAnalysis`, `AfterTick`, `AfterStop`, `SwitchTo`, `Ingest`): these have no `ensures` of their own. Their behaviour is stated by the lemmas in `Properties` and `Invariant`.

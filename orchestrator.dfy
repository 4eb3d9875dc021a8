/** The hook's refs as an object: `analyzeCurrentFrame`, `tick` and
    `stopCapture` update the item map, the current-id ref, the rate
    limiter's clock and the event log in place, step by step as the hook
    does. Each method is proved to reach the state the matching function of
    the `Engine` module describes, and to keep `ValidEngine`. */
module Orchestrator {
  import opened Types
  import opened Voting
  import opened Engine
  import opened Invariant
  import Crypto

  class AssessmentOrchestrator {
    /** `stateMapRef`: per-question state keyed by fingerprint id. */
    var items: map<string, ItemState>
    /** `currentFingerprintIdRef`. */
    var current: Option<string>
    /** `lastAnalysisTimeRef`. */
    var lastAnalysis: int
    /** Every event passed to `emit`, oldest first. */
    var events: seq<AppEvent>

    function Snapshot(): Engine
      reads this
    {
      Engine(items, current, lastAnalysis, events)
    }

    constructor ()
      ensures Snapshot() == Initial()
      ensures ValidEngine(Snapshot())
    {
      items := map[];
      current := None;
      lastAnalysis := 0;
      events := [];
    }

    /** `emit`: the event becomes the shown one. */
    method Emit(ev: AppEvent)
      modifies this
      ensures events == old(events) + [ev]
      ensures items == old(items) && current == old(current) && lastAnalysis == old(lastAnalysis)
    {
      events := events + [ev];
    }

    /** `oldState?.abortController?.abort()` on the current item. */
    method AbortCurrentItem()
      modifies this
      ensures Snapshot() == AbortCurrent(old(Snapshot()))
    {
      if Truthy(current) && current.value in items && items[current.value].abortController.Some? {
        var id := current.value;
        items := items[id := items[id].(abortController := Some(AbortHandle(true)))];
      }
    }

    method AnalyzeCurrentFrame(f: Frame, sha1: string -> seq<Byte>)
      modifies this
      ensures Snapshot() == AfterAnalysis(old(Snapshot()), f, sha1)
      ensures ValidEngine(old(Snapshot())) && Sha1Digests(sha1) ==> ValidEngine(Snapshot())
    {
      ghost var e0 := Snapshot();
      AnalyzeSteps(f, sha1);
      if ValidEngine(e0) && Sha1Digests(sha1) {
        AnalysisValid(e0, f, sha1);
      }
    }

    method AnalyzeSteps(f: Frame, sha1: string -> seq<Byte>)
      modifies this
      ensures Snapshot() == AfterAnalysis(old(Snapshot()), f, sha1)
    {
      if !f.videoPresent {
        return;
      }
      var now := f.now;
      if now - lastAnalysis < RateLimitMs {
        return;
      }
      lastAnalysis := now;
      if !f.captured || f.oracle.Threw? {
        return;
      }
      var r := f.oracle.result;
      if r.answerId == NoQuestion || BelowFloor(r.confidence) {
        return;
      }
      var questionText := if r.questionText == "" then UnknownQuestion else r.questionText;
      var fingerprint := Crypto.GenerateFingerprint(sha1, questionText, r.options);
      var go := SwitchQuestion(fingerprint);
      if go {
        Record(fingerprint.id, r, f.voteTs);
      }
    }

    /** Lines 95-126 of the hook: follow the question on screen. Returns
        false when the replay of a finalised item without a cached answer
        throws. */
    method SwitchQuestion(fp: Fingerprint) returns (go: bool)
      modifies this
      ensures Step(Snapshot(), go) == SwitchTo(old(Snapshot()), fp)
    {
      go := true;
      if current != Some(fp.id) {
        AbortCurrentItem();
        current := Some(fp.id);
        if fp.id !in items {
          items := items[fp.id := NewItem(fp)];
          Emit(StatusEvent(ReadingStatus));
        } else {
          var existing := items[fp.id];
          if existing.status == Finalized {
            if existing.best.None? {
              go := false;
              return;
            }
            var b := existing.best.value;
            Emit(FinalizedEvent(b.answerId, b.confidence, b.instruction, fp.id));
          }
        }
      }
    }

    /** Lines 128-182 of the hook: record the result on the item. */
    method Record(id: string, r: AnalysisResult, ts: int)
      modifies this
      ensures Snapshot() == Ingest(old(Snapshot()), id, r, ts)
    {
      if id !in items {
        return;
      }
      var state := items[id];
      if state.status == Finalized || state.isAsking {
        return;
      }
      state := state.(status := Reading, isAsking := true, abortController := Some(AbortHandle(false)));
      items := items[id := state];
      if r.answerId == "" || r.confidence.NotNumber? {
        items := items[id := items[id].(isAsking := false)];
        return;
      }
      CastVote(id, VoteOf(r, ts));
    }

    /** Lines 144-181 of the hook: append the vote to the item being asked
        about, finalise on a confident one or announce `proposing`, and
        clear `isAsking`. */
    method CastVote(id: string, vote: Vote)
      modifies this
      requires id in items
      ensures current == old(current) && lastAnalysis == old(lastAnalysis)
      ensures var st := old(items[id]).(votes := old(items[id].votes) + [vote]);
        if vote.confidence >= HighConfidenceThreshold then
          var b := Best(vote.answerId, vote.confidence, vote.instruction);
          var done := st.(status := Finalized, best := Some(b));
          && items == old(items)[id := done.(isAsking := false)]
          && events == old(events) + [FinalizedEvent(b.answerId, b.confidence, b.instruction, done.fingerprint.id)]
        else
          && items == old(items)[id := st.(isAsking := false)]
          && events == old(events) + [StatusEvent(ProposingStatus)]
    {
      var state := items[id];
      state := state.(votes := state.votes + [vote]);
      items := items[id := state];
      if vote.confidence >= HighConfidenceThreshold {
        var best := Best(vote.answerId, vote.confidence, vote.instruction);
        state := state.(status := Finalized, best := Some(best));
        items := items[id := state];
        Emit(FinalizedEvent(best.answerId, best.confidence, best.instruction, state.fingerprint.id));
      } else {
        Emit(StatusEvent(ProposingStatus));
      }
      items := items[id := items[id].(isAsking := false)];
    }

    method Tick(now: int)
      modifies this
      ensures Snapshot() == AfterTick(old(Snapshot()), now)
      ensures ValidEngine(old(Snapshot())) ==> ValidEngine(Snapshot())
    {
      ghost var e0 := Snapshot();
      TickSteps(now);
      if ValidEngine(e0) {
        TickValid(e0, now);
      }
    }

    method TickSteps(now: int)
      modifies this
      ensures Snapshot() == AfterTick(old(Snapshot()), now)
    {
      if !Truthy(current) {
        return;
      }
      var id := current.value;
      if id !in items {
        return;
      }
      var state := items[id];
      if state.status != Reading {
        return;
      }
      var recentVotes := Window(state.votes);
      if |recentVotes| < StabilityWindowSize {
        if !(|recentVotes| >= 1 && now - recentVotes[0].ts > StaleWindowMs) {
          return;
        }
      } else if now - recentVotes[0].ts < StabilityTimeMs {
        return;
      }
      assert Ripe(recentVotes, now);
      var verdict := Verdict(recentVotes);
      if verdict.Some? {
        var best := verdict.value;
        items := items[id := state.(status := Finalized, best := Some(best))];
        Emit(FinalizedEvent(best.answerId, best.confidence, best.instruction, state.fingerprint.id));
      }
    }

    /** Lines 209-233 of the hook: group the window by answer, take the
        largest group, and accept it when it has the quorum and a mean
        confidence of at least 0.7, with the instruction of its most
        confident vote. */
    static method Verdict(recentVotes: seq<Vote>) returns (verdict: Option<Best>)
      ensures verdict == Decide(recentVotes)
    {
      var voteCounts := CountVotes(recentVotes);
      if voteCounts == [] {
        return None;
      }
      var data := voteCounts[WinnerIndex(voteCounts)];
      if data.answerId == "" {
        return None;
      }
      TallyGroups(recentVotes);
      var avgConfidence := Mean(data.votes);
      var requiredCount := if |recentVotes| < StabilityWindowSize then 1 else StabilityVoteThreshold;
      if data.count >= requiredCount && avgConfidence >= StabilityConfidenceThreshold {
        var bestVote := BestVote(data.votes);
        return Some(Best(bestVote.answerId, avgConfidence, bestVote.instruction));
      }
      return None;
    }

    method StopCapture()
      modifies this
      ensures Snapshot() == AfterStop(old(Snapshot()))
      ensures ValidEngine(Snapshot())
    {
      AbortCurrentItem();
      current := None;
      items := map[];
      Emit(StatusEvent(IdleStatus));
    }
  }
}

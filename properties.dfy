/** What one call of `analyzeCurrentFrame`, `tick` or `stopCapture` does to
    the engine: the rate limiter, question switching and replay, vote
    recording and the fast path, what `tick` may change, and that a
    finalised question stays final. */
module Properties {
  import opened Types
  import opened Voting
  import opened Engine
  import opened Invariant

  // ---------------------------------------------------------------------
  // Helpers: what the steps of an analysis leave alone
  // ---------------------------------------------------------------------

  lemma SwitchToFrame(e: Engine, fp: Fingerprint)
    ensures var s := SwitchTo(e, fp);
      && s.engine.lastAnalysis == e.lastAnalysis
      && s.engine.current == Some(fp.id)
      && (e.current == Some(fp.id) ==> s == Step(e, true))
      && (e.current != Some(fp.id) ==> s.engine.items.Keys == e.items.Keys + {fp.id})
      && (forall k :: k in e.items ==>
            k in s.engine.items && s.engine.items[k] == e.items[k].(abortController := s.engine.items[k].abortController))
      && (e.current != Some(fp.id) && fp.id !in e.items ==> s.engine.items[fp.id] == NewItem(fp))
      && |e.events| <= |s.engine.events|
      && s.engine.events[..|e.events|] == e.events
  {
    if e.current != Some(fp.id) {
      var e1 := AbortCurrent(e).(current := Some(fp.id));
      assert e1.items.Keys == e.items.Keys && e1.events == e.events by {
        AbortCurrentFrame(e);
      }
      var s := SwitchTo(e, fp);
      assert s.engine.items == e1.items || (fp.id !in e1.items && s.engine.items == e1.items[fp.id := NewItem(fp)]);
      AbortCurrentFrame(e);
      forall k | k in e.items
        ensures k in s.engine.items && s.engine.items[k] == e.items[k].(abortController := s.engine.items[k].abortController)
      {
        assert s.engine.items[k] == e1.items[k];
      }
      assert s.engine.events[..|e.events|] == e.events;
    }
  }

  lemma AbortCurrentFrame(e: Engine)
    ensures var e' := AbortCurrent(e);
      && e'.lastAnalysis == e.lastAnalysis && e'.current == e.current && e'.events == e.events
      && e'.items.Keys == e.items.Keys
      && (forall k :: k in e.items ==> e'.items[k] == e.items[k].(abortController := e'.items[k].abortController))
  {
  }

  lemma IngestFrame(e: Engine, id: string, r: AnalysisResult, ts: int)
    ensures var e' := Ingest(e, id, r, ts);
      && e'.lastAnalysis == e.lastAnalysis
      && e'.current == e.current
      && e'.items.Keys == e.items.Keys
      && (forall k :: k in e.items && k != id ==> e'.items[k] == e.items[k])
      && (id in e.items ==> e'.items[id].fingerprint == e.items[id].fingerprint)
      && |e.events| <= |e'.events| <= |e.events| + 1
      && e'.events[..|e.events|] == e.events
  {
    assert Ingest(e, id, r, ts).events[..|e.events|] == e.events;
  }

  /** Recording a result on an item that is neither finalised nor busy. */
  lemma IngestOpen(e: Engine, id: string, r: AnalysisResult, ts: int)
    requires id in e.items && e.items[id].status != Finalized && !e.items[id].isAsking
    ensures var st := e.items[id]; var e' := Ingest(e, id, r, ts);
      var usable := r.answerId != "" && r.confidence.Number?;
      var fast := usable && r.confidence.value >= HighConfidenceThreshold;
      && e'.items[id].votes == st.votes + (if usable then [VoteOf(r, ts)] else [])
      && e'.items[id].status == (if fast then Finalized else Reading)
      && e'.items[id].best == (if fast then Some(Best(r.answerId, r.confidence.value, r.instruction)) else st.best)
      && !e'.items[id].isAsking
      && (usable ==> Shown(e') == if fast then FinalizedEvent(r.answerId, r.confidence.value, r.instruction, st.fingerprint.id)
                                  else StatusEvent(ProposingStatus))
  {
  }

  /** A call that records its result is the switch followed by the
      recording. */
  lemma Recorded(e: Engine, f: Frame, sha1: string -> seq<Byte>)
    requires Admits(e, f) && f.captured && f.oracle.Answered? && !Skipped(f.oracle.result)
    ensures var r := f.oracle.result; var fp := FingerprintOf(sha1, r);
      var s := SwitchTo(e.(lastAnalysis := f.now), fp);
      AfterAnalysis(e, f, sha1) == if s.go then Ingest(s.engine, fp.id, r, f.voteTs) else s.engine
  {
  }

  // ---------------------------------------------------------------------
  // The rate limiter and the early exits
  // ---------------------------------------------------------------------

  /** The clock of the last analysis moves to the call's time exactly when
      the call gets past the video check and the 8 s rate limit; a call
      that does not leaves everything as it was. */
  lemma AnalysisClock(e: Engine, f: Frame, sha1: string -> seq<Byte>)
    ensures AfterAnalysis(e, f, sha1).lastAnalysis == if Admits(e, f) then f.now else e.lastAnalysis
    ensures !Admits(e, f) ==> AfterAnalysis(e, f, sha1) == e
  {
    if Admits(e, f) && f.captured && f.oracle.Answered? && !Skipped(f.oracle.result) {
      var e1 := e.(lastAnalysis := f.now);
      var r := f.oracle.result;
      var fp := FingerprintOf(sha1, r);
      SwitchToFrame(e1, fp);
      IngestFrame(SwitchTo(e1, fp).engine, fp.id, r, f.voteTs);
    }
  }

  /** An admitted call without a frame, with a failed oracle call, or with
      a result that names no question or is below 0.3 confidence changes
      nothing but the clock. */
  lemma NothingToRecord(e: Engine, f: Frame, sha1: string -> seq<Byte>)
    requires Admits(e, f)
    requires !f.captured || f.oracle.Threw? || Skipped(f.oracle.result)
    ensures AfterAnalysis(e, f, sha1) == e.(lastAnalysis := f.now)
  {
  }

  /** A confidence that is not a number is skipped exactly when it coerces
      to a number below 0.3; `null`, `false`, `""` and `[]` coerce to 0, so
      such a result changes nothing but the clock. */
  lemma CoercedConfidence(e: Engine, f: Frame, sha1: string -> seq<Byte>)
    requires Admits(e, f) && f.captured && f.oracle.Answered?
    requires f.oracle.result.answerId != NoQuestion && f.oracle.result.confidence.NotNumber?
    ensures var n := f.oracle.result.confidence.coerced;
      Skipped(f.oracle.result) <==> n.Some? && n.value < LowConfidenceFloor
    ensures f.oracle.result.confidence.coerced == Some(0.0) ==> AfterAnalysis(e, f, sha1) == e.(lastAnalysis := f.now)
  {
    if f.oracle.result.confidence.coerced == Some(0.0) {
      NothingToRecord(e, f, sha1);
    }
  }

  // ---------------------------------------------------------------------
  // Following the question on screen
  // ---------------------------------------------------------------------

  /** A recorded result makes its question current; items are only ever
      added, an item other than the detected one keeps everything but its
      abort controller, and events are only appended. */
  lemma AnalysisFollowsQuestion(e: Engine, f: Frame, sha1: string -> seq<Byte>)
    requires ValidEngine(e)
    requires Admits(e, f) && f.captured && f.oracle.Answered? && !Skipped(f.oracle.result)
    ensures var fp := FingerprintOf(sha1, f.oracle.result); var e' := AfterAnalysis(e, f, sha1);
      && e'.current == Some(fp.id)
      && e'.items.Keys == e.items.Keys + {fp.id}
      && (forall k :: k in e.items && k != fp.id ==>
            e'.items[k] == e.items[k].(abortController := e'.items[k].abortController))
      && |e.events| <= |e'.events|
      && e'.events[..|e.events|] == e.events
  {
    var e1 := e.(lastAnalysis := f.now);
    assert AfterAnalysis(e, f, sha1) == AfterResult(e1, sha1, f.oracle.result, f.voteTs);
    ResultFollowsQuestion(e1, sha1, f.oracle.result, f.voteTs);
  }

  lemma ResultFollowsQuestion(e: Engine, sha1: string -> seq<Byte>, r: AnalysisResult, ts: int)
    requires e.current.Some? ==> e.current.value in e.items
    requires !Skipped(r)
    ensures var fp := FingerprintOf(sha1, r); var e' := AfterResult(e, sha1, r, ts);
      && e'.current == Some(fp.id)
      && e'.items.Keys == e.items.Keys + {fp.id}
      && (forall k :: k in e.items && k != fp.id ==>
            e'.items[k] == e.items[k].(abortController := e'.items[k].abortController))
      && |e.events| <= |e'.events|
      && e'.events[..|e.events|] == e.events
  {
    var fp := FingerprintOf(sha1, r);
    SwitchToFrame(e, fp);
    var s := SwitchTo(e, fp);
    IngestFrame(s.engine, fp.id, r, ts);
    ResultKeepsEvents(e, sha1, r, ts);
  }

  /** Handling an answer only appends events. */
  lemma ResultKeepsEvents(e: Engine, sha1: string -> seq<Byte>, r: AnalysisResult, ts: int)
    ensures |e.events| <= |AfterResult(e, sha1, r, ts).events|
    ensures AfterResult(e, sha1, r, ts).events[..|e.events|] == e.events
  {
    if !Skipped(r) {
      var fp := FingerprintOf(sha1, r);
      SwitchToFrame(e, fp);
      var s := SwitchTo(e, fp);
      if s.go {
        IngestFrame(s.engine, fp.id, r, ts);
        var e2 := Ingest(s.engine, fp.id, r, ts);
        assert e2.events[..|e.events|] == e2.events[..|s.engine.events|][..|e.events|];
      }
    }
  }

  /** Leaving a question aborts its request: after a switch the item that
      was current holds no live abort controller. */
  lemma SwitchAbortsOld(e: Engine, f: Frame, sha1: string -> seq<Byte>)
    requires ValidEngine(e) && Sha1Digests(sha1)
    requires Admits(e, f) && f.captured && f.oracle.Answered? && !Skipped(f.oracle.result)
    requires e.current.Some? && e.current.value != FingerprintOf(sha1, f.oracle.result).id
    ensures e.current.value in AfterAnalysis(e, f, sha1).items
    ensures Quiet(AfterAnalysis(e, f, sha1).items[e.current.value].abortController)
  {
    AnalysisValid(e, f, sha1);
    AnalysisFollowsQuestion(e, f, sha1);
  }

  /** A question never seen before is added as a fresh item under its
      fingerprint, and `reading` is announced before anything else. */
  lemma NewQuestionAnnounced(e: Engine, f: Frame, sha1: string -> seq<Byte>)
    requires ValidEngine(e)
    requires Admits(e, f) && f.captured && f.oracle.Answered? && !Skipped(f.oracle.result)
    requires FingerprintOf(sha1, f.oracle.result).id !in e.items
    ensures var fp := FingerprintOf(sha1, f.oracle.result); var e' := AfterAnalysis(e, f, sha1);
      && |e'.events| > |e.events|
      && e'.events[|e.events|] == StatusEvent(ReadingStatus)
      && fp.id in e'.items
      && e'.items[fp.id].fingerprint == fp
  {
    var e1 := e.(lastAnalysis := f.now);
    var r := f.oracle.result;
    var fp := FingerprintOf(sha1, r);
    Recorded(e, f, sha1);
    SwitchToFrame(e1, fp);
    var s := SwitchTo(e1, fp);
    assert s.go && s.engine.items[fp.id] == NewItem(fp);
    assert s.engine.events == e.events + [StatusEvent(ReadingStatus)];
    IngestFrame(s.engine, fp.id, r, f.voteTs);
    var e2 := Ingest(s.engine, fp.id, r, f.voteTs);
    assert e2.events[|e.events|] == e2.events[..|s.engine.events|][|e.events|];
  }

  /** Coming back to a finalised question replays its cached answer under
      the question's id and changes nothing else about it. */
  lemma FinalizedReplayed(e: Engine, f: Frame, sha1: string -> seq<Byte>)
    requires ValidEngine(e)
    requires Admits(e, f) && f.captured && f.oracle.Answered? && !Skipped(f.oracle.result)
    requires var id := FingerprintOf(sha1, f.oracle.result).id;
      id in e.items && e.items[id].status == Finalized && e.current != Some(id)
    ensures var fp := FingerprintOf(sha1, f.oracle.result); var e' := AfterAnalysis(e, f, sha1);
      var b := e.items[fp.id].best.value;
      && e'.events == e.events + [FinalizedEvent(b.answerId, b.confidence, b.instruction, fp.id)]
      && fp.id in e'.items
      && e'.items[fp.id] == e.items[fp.id]
  {
    var fp := FingerprintOf(sha1, f.oracle.result);
    var e1 := e.(lastAnalysis := f.now);
    AbortCurrentValid(e1);
    assert AbortCurrent(e1).items[fp.id] == e.items[fp.id];
  }

  /** Seeing the current question again after it was finalised does
      nothing: no replay, no vote. */
  lemma FinalizedCurrentIgnored(e: Engine, f: Frame, sha1: string -> seq<Byte>)
    requires Admits(e, f) && f.captured && f.oracle.Answered? && !Skipped(f.oracle.result)
    requires var id := FingerprintOf(sha1, f.oracle.result).id;
      e.current == Some(id) && id in e.items && e.items[id].status == Finalized
    ensures AfterAnalysis(e, f, sha1) == e.(lastAnalysis := f.now)
  {
  }

  /** A finalised item without a cached answer makes the replay throw: the
      call ends with the question current and no event. Under
      `ValidEngine` this cannot happen. */
  lemma MissingBestEndsCall(e: Engine, f: Frame, sha1: string -> seq<Byte>)
    requires Admits(e, f) && f.captured && f.oracle.Answered? && !Skipped(f.oracle.result)
    requires var id := FingerprintOf(sha1, f.oracle.result).id;
      id in e.items && e.items[id].status == Finalized && e.items[id].best.None? && e.current != Some(id)
    ensures var id := FingerprintOf(sha1, f.oracle.result).id; var e' := AfterAnalysis(e, f, sha1);
      e'.events == e.events && e'.current == Some(id) && id in e'.items && e'.items[id] == e.items[id]
    ensures !ValidEngine(e)
  {
    var fp := FingerprintOf(sha1, f.oracle.result);
    var e1 := e.(lastAnalysis := f.now);
    if Truthy(e1.current) && e1.current.value in e1.items {
      assert e1.current.value != fp.id;
    }
    assert AbortCurrent(e1).items[fp.id] == e.items[fp.id];
  }

  // ---------------------------------------------------------------------
  // Recording a vote
  // ---------------------------------------------------------------------

  /** The votes an item held before the call, none for a new item. */
  function PriorVotes(e: Engine, id: string): seq<Vote>
  {
    if id in e.items then e.items[id].votes else []
  }

  /** After the switch, the detected item is open for recording and holds
      the votes it had before. */
  lemma SwitchedOpen(e: Engine, fp: Fingerprint)
    requires ValidEngine(e)
    requires fp.id in e.items ==> e.items[fp.id].status != Finalized
    ensures var s := SwitchTo(e, fp);
      && s.go && fp.id in s.engine.items
      && s.engine.items[fp.id].status != Finalized
      && !s.engine.items[fp.id].isAsking
      && s.engine.items[fp.id].votes == PriorVotes(e, fp.id)
      && s.engine.items[fp.id].best == None
      && s.engine.items[fp.id].fingerprint.id == fp.id
  {
    SwitchToFrame(e, fp);
    if fp.id in e.items {
      assert ValidItem(fp.id, e.items[fp.id]);
    }
  }

  /** A usable result on a question that is not finalised appends exactly
      one vote to it. A confidence of at least 0.85 finalises the question
      at once on that vote and shows the finalised answer; a lower one
      leaves it reading and shows `proposing`. */
  lemma VoteRecorded(e: Engine, f: Frame, sha1: string -> seq<Byte>)
    requires ValidEngine(e)
    requires Admits(e, f) && f.captured && f.oracle.Answered?
    requires var r := f.oracle.result; !Skipped(r) && r.answerId != "" && r.confidence.Number?
    requires var id := FingerprintOf(sha1, f.oracle.result).id;
      id in e.items ==> e.items[id].status != Finalized
    ensures var r := f.oracle.result; var c := r.confidence.value;
      var id := FingerprintOf(sha1, r).id; var e' := AfterAnalysis(e, f, sha1);
      && id in e'.items
      && e'.items[id].votes == PriorVotes(e, id) + [Vote(r.answerId, c, r.instruction, r.justification, f.voteTs)]
      && e'.items[id].status == (if c >= HighConfidenceThreshold then Finalized else Reading)
      && e'.items[id].best == (if c >= HighConfidenceThreshold then Some(Best(r.answerId, c, r.instruction)) else None)
      && Shown(e') == (if c >= HighConfidenceThreshold then FinalizedEvent(r.answerId, c, r.instruction, id)
                       else StatusEvent(ProposingStatus))
  {
    var r := f.oracle.result;
    var fp := FingerprintOf(sha1, r);
    var e1 := e.(lastAnalysis := f.now);
    Recorded(e, f, sha1);
    SwitchedOpen(e1, fp);
    IngestOpen(SwitchTo(e1, fp).engine, fp.id, r, f.voteTs);
  }

  /** A result without an answer id or without a numeric confidence adds
      no vote; the question is still marked reading. */
  lemma InvalidResultNotCounted(e: Engine, f: Frame, sha1: string -> seq<Byte>)
    requires ValidEngine(e)
    requires Admits(e, f) && f.captured && f.oracle.Answered?
    requires var r := f.oracle.result; !Skipped(r) && (r.answerId == "" || r.confidence.NotNumber?)
    requires var id := FingerprintOf(sha1, f.oracle.result).id;
      id in e.items ==> e.items[id].status != Finalized
    ensures var id := FingerprintOf(sha1, f.oracle.result).id; var e' := AfterAnalysis(e, f, sha1);
      && id in e'.items
      && e'.items[id].votes == PriorVotes(e, id)
      && e'.items[id].status == Reading
      && !e'.items[id].isAsking
  {
    var r := f.oracle.result;
    var fp := FingerprintOf(sha1, r);
    var e1 := e.(lastAnalysis := f.now);
    Recorded(e, f, sha1);
    SwitchedOpen(e1, fp);
    IngestUnusable(SwitchTo(e1, fp).engine, fp.id, r, f.voteTs);
  }

  lemma IngestUnusable(e: Engine, id: string, r: AnalysisResult, ts: int)
    requires id in e.items && e.items[id].status != Finalized && !e.items[id].isAsking
    requires r.answerId == "" || r.confidence.NotNumber?
    ensures var st := e.items[id];
      Ingest(e, id, r, ts).items[id] == st.(status := Reading, abortController := Some(AbortHandle(false)))
  {
  }

  /** Every item survives an analysis, its votes only grow, by at most one
      vote, and a finalised item keeps its status, answer and votes. */
  lemma AnalysisKeepsHistory(e: Engine, f: Frame, sha1: string -> seq<Byte>, k: string)
    requires k in e.items
    ensures var e' := AfterAnalysis(e, f, sha1);
      && k in e'.items
      && |e.items[k].votes| <= |e'.items[k].votes| <= |e.items[k].votes| + 1
      && e'.items[k].votes[..|e.items[k].votes|] == e.items[k].votes
      && (e.items[k].status == Finalized ==>
            e'.items[k] == e.items[k].(abortController := e'.items[k].abortController))
  {
    if Admits(e, f) && f.captured && f.oracle.Answered? && !Skipped(f.oracle.result) {
      var e1 := e.(lastAnalysis := f.now);
      var r := f.oracle.result;
      var fp := FingerprintOf(sha1, r);
      Recorded(e, f, sha1);
      SwitchToFrame(e1, fp);
      var s := SwitchTo(e1, fp);
      assert s.engine.items[k] == e.items[k].(abortController := s.engine.items[k].abortController);
      if s.go {
        IngestFrame(s.engine, fp.id, r, f.voteTs);
        if k == fp.id {
          IngestGrows(s.engine, fp.id, r, f.voteTs);
        }
      }
    } else {
      assert e.items[k].votes[..|e.items[k].votes|] == e.items[k].votes;
    }
  }

  lemma IngestGrows(e: Engine, id: string, r: AnalysisResult, ts: int)
    requires id in e.items
    ensures var e' := Ingest(e, id, r, ts);
      && |e.items[id].votes| <= |e'.items[id].votes| <= |e.items[id].votes| + 1
      && e'.items[id].votes[..|e.items[id].votes|] == e.items[id].votes
      && (e.items[id].status == Finalized ==> e'.items[id] == e.items[id])
  {
    var v := Ingest(e, id, r, ts).items[id].votes;
    assert v[..|e.items[id].votes|] == e.items[id].votes;
  }

  // ---------------------------------------------------------------------
  // tick
  // ---------------------------------------------------------------------

  /** `tick` touches at most the current item and never its votes: it
      either changes nothing, or finalises that item on the verdict of its
      window and shows the finalised answer under the item's id. */
  lemma TickOnlyFinalizes(e: Engine, now: int)
    ensures var e' := AfterTick(e, now);
      || e' == e
      || (&& Truthy(e.current) && e.current.value in e.items
          && var id := e.current.value; var st := e.items[id];
          && st.status == Reading
          && Decide(Window(st.votes)).Some?
          && var b := Decide(Window(st.votes)).value;
          && e' == e.(items := e.items[id := st.(status := Finalized, best := Some(b))],
                      events := e.events + [FinalizedEvent(b.answerId, b.confidence, b.instruction, st.fingerprint.id)]))
  {
  }

  /** When `tick` finalises: exactly when the current item is reading, its
      window is ripe, and the window's winning answer is non-empty, has the
      quorum and a mean confidence of at least 0.7. */
  lemma TickFinalizesIff(e: Engine, now: int)
    requires Truthy(e.current) && e.current.value in e.items
    requires e.items[e.current.value].status == Reading
    ensures var id := e.current.value; var w := Window(e.items[id].votes);
      AfterTick(e, now).items[id].status == Finalized <==>
        && Ripe(w, now)
        && var a := Winner(w); var g := Filter(w, a);
        && a != "" && |g| >= Quorum(|w|) && Mean(g) >= StabilityConfidenceThreshold
  {
    var id := e.current.value;
    var w := Window(e.items[id].votes);
    if Ripe(w, now) {
      DecideSpec(w);
    }
  }

  /** A full window split over three different answers makes `tick` wait. */
  lemma SplitWindowWaits(e: Engine, now: int)
    requires Truthy(e.current) && e.current.value in e.items
    requires var w := Window(e.items[e.current.value].votes);
      |w| == StabilityWindowSize &&
      w[0].answerId != w[1].answerId && w[1].answerId != w[2].answerId && w[0].answerId != w[2].answerId
    ensures AfterTick(e, now) == e
  {
    ThreeDistinctAnswersNeverFinalize(Window(e.items[e.current.value].votes));
  }

  /** A finalised answer shown by `analyzeCurrentFrame`, from the fast path
      or from a replay, names the question that is then current. */
  lemma AnalysisFinalizedNamesCurrent(e: Engine, f: Frame, sha1: string -> seq<Byte>)
    requires ValidEngine(e)
    ensures var e' := AfterAnalysis(e, f, sha1);
      Shown(e').FinalizedEvent? && |e'.events| > |e.events| ==> e'.current == Some(Shown(e').fingerprintId)
  {
    if Admits(e, f) && f.captured && f.oracle.Answered? && !Skipped(f.oracle.result) {
      var e1 := e.(lastAnalysis := f.now);
      ResultFinalizedNamesCurrent(e1, sha1, f.oracle.result, f.voteTs);
    }
  }

  lemma ResultFinalizedNamesCurrent(e: Engine, sha1: string -> seq<Byte>, r: AnalysisResult, ts: int)
    requires ValidEngine(e) && !Skipped(r)
    ensures var e' := AfterResult(e, sha1, r, ts);
      Shown(e').FinalizedEvent? && |e'.events| > |e.events| ==> e'.current == Some(Shown(e').fingerprintId)
  {
    HandleNamesCurrent(e, FingerprintOf(sha1, r), r, ts);
  }

  lemma HandleNamesCurrent(e: Engine, fp: Fingerprint, r: AnalysisResult, ts: int)
    requires ValidEngine(e)
    ensures var e' := Handle(e, fp, r, ts);
      Shown(e').FinalizedEvent? && |e'.events| > |e.events| ==> e'.current == Some(Shown(e').fingerprintId)
  {
    var s := SwitchTo(e, fp);
    SwitchShown(e, fp);
    if s.go {
      SwitchKeepsIdentity(e, fp);
      IngestNamesCurrent(s.engine, fp.id, r, ts);
    }
  }

  lemma IngestNamesCurrent(e: Engine, id: string, r: AnalysisResult, ts: int)
    requires e.current == Some(id)
    requires id in e.items ==> e.items[id].fingerprint.id == id
    ensures var e' := Ingest(e, id, r, ts);
      && e'.current == e.current
      && (|e'.events| <= |e.events| ==> e'.events == e.events)
      && (Shown(e').FinalizedEvent? && |e'.events| > |e.events| ==> e'.current == Some(Shown(e').fingerprintId))
  {
    IngestShown(e, id, r, ts);
  }

  /** After a switch, the item under the detected id carries that id. */
  lemma SwitchKeepsIdentity(e: Engine, fp: Fingerprint)
    requires ValidEngine(e)
    ensures var s := SwitchTo(e, fp);
      fp.id in s.engine.items ==> s.engine.items[fp.id].fingerprint.id == fp.id
  {
    SwitchToFrame(e, fp);
    if fp.id in e.items {
      assert ValidItem(fp.id, e.items[fp.id]);
    }
  }

  lemma SwitchShown(e: Engine, fp: Fingerprint)
    ensures var s := SwitchTo(e, fp);
      s.engine.current == Some(fp.id) &&
      (|s.engine.events| > |e.events| ==>
        Shown(s.engine) == StatusEvent(ReadingStatus) ||
        (Shown(s.engine).FinalizedEvent? && Shown(s.engine).fingerprintId == fp.id))
      && (|s.engine.events| <= |e.events| ==> s.engine.events == e.events)
  {
  }

  lemma IngestShown(e: Engine, id: string, r: AnalysisResult, ts: int)
    ensures var e' := Ingest(e, id, r, ts);
      && e'.current == e.current
      && (|e'.events| > |e.events| ==>
            id in e.items &&
            (Shown(e') == StatusEvent(ProposingStatus) ||
             (Shown(e').FinalizedEvent? && Shown(e').fingerprintId == e.items[id].fingerprint.id)))
      && (|e'.events| <= |e.events| ==> e'.events == e.events)
  {
  }

  /** A finalised answer shown by `tick` names the current question. */
  lemma TickFinalizedNamesCurrent(e: Engine, now: int)
    requires ValidEngine(e)
    ensures var e' := AfterTick(e, now);
      Shown(e').FinalizedEvent? && |e'.events| > |e.events| ==> e'.current == Some(Shown(e').fingerprintId)
  {
    if Truthy(e.current) && e.current.value in e.items {
      assert ValidItem(e.current.value, e.items[e.current.value]);
    }
  }

  // ---------------------------------------------------------------------
  // stopCapture
  // ---------------------------------------------------------------------

  /** Stopping forgets every question and the current one, shows `idle`,
      and keeps the rate limiter's clock, so a restart within 8 s of the
      last analysis still waits. */
  lemma StopForgets(e: Engine)
    ensures AfterStop(e) == Engine(map[], None, e.lastAnalysis, e.events + [StatusEvent(IdleStatus)])
    ensures Shown(AfterStop(e)) == StatusEvent(IdleStatus)
  {
  }
}

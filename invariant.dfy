/** The invariant the orchestrator's refs keep between calls, and its
    preservation by every entry point. */
module Invariant {
  import opened Types
  import opened Voting
  import opened Engine
  import Crypto

  /** SHA-1 yields 20-byte digests (FIPS 180-4), so ids are never empty. */
  ghost predicate Sha1Digests(sha1: string -> seq<Byte>)
  {
    forall s :: |sha1(s)| == 20
  }

  /** The cached answer is one the oracle proposed for this item. */
  predicate Backed(votes: seq<Vote>, b: Best)
  {
    exists v :: v in votes && v.answerId == b.answerId && v.instruction == b.instruction
  }

  /** A controller that can no longer cancel anything. */
  predicate Quiet(c: Option<AbortHandle>)
  {
    c.None? || c.value.aborted
  }

  /** An item between calls: keyed by its own non-empty id, past `Idle`,
      finalised exactly when it caches an answer that one of its votes
      proposed, not marked as asking, and holding only votes with an
      answer id. */
  predicate ValidItem(k: string, st: ItemState)
  {
    && k != ""
    && st.fingerprint.id == k
    && st.status != Idle
    && !st.isAsking
    && (st.status == Finalized <==> st.best.Some?)
    && (st.best.Some? ==> Backed(st.votes, st.best.value))
    && (forall i :: 0 <= i < |st.votes| ==> st.votes[i].answerId != "")
  }

  /** The engine between calls: the current id names an item, there are
      items only while a question is current, every item is valid, and only
      the current item can hold a live abort controller. */
  predicate ValidEngine(e: Engine)
  {
    && (e.current.Some? ==> e.current.value in e.items)
    && (e.current.None? ==> e.items == map[])
    && (forall k :: k in e.items ==> ValidItem(k, e.items[k]))
    && (forall k :: k in e.items && Some(k) != e.current ==> Quiet(e.items[k].abortController))
  }

  /** A freshly added item, before the result is recorded on it. */
  predicate Fresh(k: string, st: ItemState)
  {
    k != "" && st == NewItem(st.fingerprint) && st.fingerprint.id == k
  }

  /** The engine between the switch and the recording of the result: as
      `ValidEngine`, except that the current item `id` may be fresh. */
  predicate Switched(e: Engine, id: string)
  {
    && e.current == Some(id)
    && id in e.items
    && (forall k :: k in e.items ==> ValidItem(k, e.items[k]) || (k == id && Fresh(k, e.items[k])))
    && (forall k :: k in e.items && Some(k) != e.current ==> Quiet(e.items[k].abortController))
  }

  lemma InitialValid()
    ensures ValidEngine(Initial())
  {
  }

  lemma {:induction false} FingerprintIdNonEmpty(sha1: string -> seq<Byte>, r: AnalysisResult)
    requires Sha1Digests(sha1)
    ensures |FingerprintOf(sha1, r).id| == 40
  {
    var d := sha1(Crypto.Combined(QuestionOf(r), r.options));
    assert |d| == 20;
    assert |Crypto.Hex(d)| == 40;
  }

  /** Aborting the current item keeps the engine valid and changes only
      that item's controller. */
  lemma AbortCurrentValid(e: Engine)
    requires ValidEngine(e)
    ensures ValidEngine(AbortCurrent(e))
    ensures AbortCurrent(e).current == e.current
    ensures AbortCurrent(e).items.Keys == e.items.Keys
    ensures forall k :: k in e.items ==> AbortCurrent(e).items[k] == e.items[k].(abortController := AbortCurrent(e).items[k].abortController)
    ensures forall k :: k in e.items ==> Quiet(e.items[k].abortController) ==> Quiet(AbortCurrent(e).items[k].abortController)
    ensures e.current.Some? ==> Quiet(AbortCurrent(e).items[e.current.value].abortController)
  {
  }

  /** Switching to a question leaves the engine valid but for a fresh
      current item. */
  lemma SwitchToSwitched(e: Engine, fp: Fingerprint)
    requires ValidEngine(e) && fp.id != ""
    ensures SwitchTo(e, fp).go ==> Switched(SwitchTo(e, fp).engine, fp.id)
    ensures !SwitchTo(e, fp).go ==> ValidEngine(SwitchTo(e, fp).engine)
  {
    if e.current != Some(fp.id) {
      AbortCurrentValid(e);
      var e1 := AbortCurrent(e).(current := Some(fp.id));
      assert forall k :: k in e1.items && Some(k) != e1.current ==> Quiet(e1.items[k].abortController);
    }
  }

  /** Recording the result on a switched-to item restores the invariant. */
  lemma IngestValid(e: Engine, id: string, r: AnalysisResult, ts: int)
    requires Switched(e, id)
    ensures ValidEngine(Ingest(e, id, r, ts))
  {
    var st := e.items[id];
    if st.status == Finalized || st.isAsking {
      assert ValidItem(id, st);
    } else {
      var st' := Ingest(e, id, r, ts).items[id];
      assert ValidItem(id, st') by { IngestedItemValid(e, id, r, ts); }
      assert Ingest(e, id, r, ts).items == e.items[id := st'];
    }
  }

  /** The item a result is recorded on ends up valid. */
  lemma IngestedItemValid(e: Engine, id: string, r: AnalysisResult, ts: int)
    requires id in e.items && id != "" && e.items[id].fingerprint.id == id
    requires e.items[id].status != Finalized && !e.items[id].isAsking && e.items[id].best.None?
    requires forall i :: 0 <= i < |e.items[id].votes| ==> e.items[id].votes[i].answerId != ""
    ensures id in Ingest(e, id, r, ts).items && ValidItem(id, Ingest(e, id, r, ts).items[id])
  {
    var st := e.items[id];
    if r.answerId != "" && r.confidence.Number? {
      var v := VoteOf(r, ts);
      var votes := st.votes + [v];
      assert v in votes;
      assert forall i :: 0 <= i < |votes| ==> votes[i].answerId != "" by {
        forall i | 0 <= i < |votes| ensures votes[i].answerId != "" {
          if i < |st.votes| { assert votes[i] == st.votes[i]; }
        }
      }
    }
  }

  /** `analyzeCurrentFrame` keeps the invariant. */
  lemma AnalysisValid(e: Engine, f: Frame, sha1: string -> seq<Byte>)
    requires ValidEngine(e) && Sha1Digests(sha1)
    ensures ValidEngine(AfterAnalysis(e, f, sha1))
  {
    if Admits(e, f) {
      var e1 := e.(lastAnalysis := f.now);
      assert ValidEngine(e1) by {
        assert e1.items == e.items && e1.current == e.current;
      }
      if f.captured && f.oracle.Answered? {
        ResultValid(e1, sha1, f.oracle.result, f.voteTs);
      }
    }
  }

  /** Handling an answer the oracle gave keeps the invariant. */
  lemma ResultValid(e: Engine, sha1: string -> seq<Byte>, r: AnalysisResult, ts: int)
    requires ValidEngine(e) && Sha1Digests(sha1)
    ensures ValidEngine(AfterResult(e, sha1, r, ts))
  {
    if !Skipped(r) {
      var fp := FingerprintOf(sha1, r);
      FingerprintIdNonEmpty(sha1, r);
      SwitchToSwitched(e, fp);
      var s := SwitchTo(e, fp);
      if s.go {
        IngestValid(s.engine, fp.id, r, ts);
      }
    }
  }

  /** The answer `tick` caches was proposed by a vote of the window. */
  lemma {:induction false} DecideBacked(w: seq<Vote>)
    requires Decide(w).Some?
    ensures Backed(w, Decide(w).value)
  {
    DecideSpec(w);
    var a := Winner(w);
    var g := Filter(w, a);
    var k := BestIndex(g);
    FilterMember(w, a, k);
    FilterAnswers(w, a, k);
    assert BestVote(g) in w;
  }

  lemma BackedInSuffix(votes: seq<Vote>, n: nat, b: Best)
    requires n <= |votes| && Backed(votes[n..], b)
    ensures Backed(votes, b)
  {
    var v :| v in votes[n..] && v.answerId == b.answerId && v.instruction == b.instruction;
    var i :| 0 <= i < |votes[n..]| && votes[n..][i] == v;
    assert votes[n + i] == v;
  }

  /** `tick` keeps the invariant. */
  lemma TickValid(e: Engine, now: int)
    requires ValidEngine(e)
    ensures ValidEngine(AfterTick(e, now))
  {
    if Truthy(e.current) && e.current.value in e.items {
      var id := e.current.value;
      var st := e.items[id];
      var w := Window(st.votes);
      if st.status == Reading && Ripe(w, now) && Decide(w).Some? {
        var b := Decide(w).value;
        DecideBacked(w);
        BackedInSuffix(st.votes, |st.votes| - |w|, b);
        FinalizeValid(e, id, b);
        var e1 := Put(e, id, st.(status := Finalized, best := Some(b)));
        assert AfterTick(e, now) == Emit(e1, FinalizedEvent(b.answerId, b.confidence, b.instruction, st.fingerprint.id));
      } else {
        assert AfterTick(e, now) == e;
      }
    } else {
      assert AfterTick(e, now) == e;
    }
  }

  /** Finalising the current reading item on an answer one of its votes
      proposed keeps the invariant. */
  lemma FinalizeValid(e: Engine, id: string, b: Best)
    requires ValidEngine(e) && id in e.items && e.items[id].status == Reading
    requires Backed(e.items[id].votes, b)
    ensures ValidEngine(Put(e, id, e.items[id].(status := Finalized, best := Some(b))))
  {
    var st := e.items[id];
    assert ValidItem(id, st.(status := Finalized, best := Some(b)));
  }

  /** `stopCapture` keeps the invariant. */
  lemma StopValid(e: Engine)
    ensures ValidEngine(AfterStop(e))
  {
  }
}

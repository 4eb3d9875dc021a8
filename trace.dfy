/** Runs of the orchestrator: any interleaving of analyses, ticks and stops.
    Along every run the invariant holds, the event log only grows, and the
    analyses that get past the rate limiter are at least 8 s apart. */
module Trace {
  import opened Types
  import opened Engine
  import opened Invariant
  import opened Properties

  /** One entry-point call. */
  datatype Op = Analyze(f: Frame) | TickAt(now: int) | Stop

  function Apply(e: Engine, op: Op, sha1: string -> seq<Byte>): Engine
  {
    match op
    case Analyze(f) => AfterAnalysis(e, f, sha1)
    case TickAt(now) => AfterTick(e, now)
    case Stop => AfterStop(e)
  }

  function Run(e: Engine, ops: seq<Op>, sha1: string -> seq<Byte>): Engine
    decreases |ops|
  {
    if ops == [] then e else Run(Apply(e, ops[0], sha1), ops[1..], sha1)
  }

  /** The clock values of the analyses of a run that pass the rate limiter,
      in the order they happen. */
  function Admitted(e: Engine, ops: seq<Op>, sha1: string -> seq<Byte>): seq<int>
    decreases |ops|
  {
    if ops == [] then [] else AdmittedBy(e, ops[0]) + Admitted(Apply(e, ops[0], sha1), ops[1..], sha1)
  }

  lemma ApplyClock(e: Engine, op: Op, sha1: string -> seq<Byte>)
    ensures Apply(e, op, sha1).lastAnalysis ==
      if op.Analyze? && Admits(e, op.f) then op.f.now else e.lastAnalysis
  {
    if op.Analyze? {
      AnalysisClock(e, op.f, sha1);
    }
  }

  /** Every run from a valid engine ends in a valid engine. */
  lemma {:induction false} RunValid(e: Engine, ops: seq<Op>, sha1: string -> seq<Byte>)
    requires ValidEngine(e) && Sha1Digests(sha1)
    ensures ValidEngine(Run(e, ops, sha1))
    decreases |ops|
  {
    if ops != [] {
      match ops[0] {
        case Analyze(f) => AnalysisValid(e, f, sha1);
        case TickAt(now) => TickValid(e, now);
        case Stop => StopValid(e);
      }
      RunValid(Apply(e, ops[0], sha1), ops[1..], sha1);
    }
  }

  /** The clock values a single call contributes to `Admitted`. */
  function AdmittedBy(e: Engine, op: Op): seq<int>
  {
    if op.Analyze? && Admits(e, op.f) then [op.f.now] else []
  }

  lemma AdmittedStep(e: Engine, ops: seq<Op>, sha1: string -> seq<Byte>)
    requires ops != []
    ensures Admitted(e, ops, sha1) == AdmittedBy(e, ops[0]) + Admitted(Apply(e, ops[0], sha1), ops[1..], sha1)
    ensures Run(e, ops, sha1) == Run(Apply(e, ops[0], sha1), ops[1..], sha1)
    ensures Apply(e, ops[0], sha1).lastAnalysis == if AdmittedBy(e, ops[0]) == [] then e.lastAnalysis else ops[0].f.now
  {
    ApplyClock(e, ops[0], sha1);
  }

  /** A run ends with the clock of its last admitted analysis, or the one
      it started with when none was admitted. */
  lemma {:induction false} RunClock(e: Engine, ops: seq<Op>, sha1: string -> seq<Byte>)
    ensures var ts := Admitted(e, ops, sha1);
      Run(e, ops, sha1).lastAnalysis == if ts == [] then e.lastAnalysis else ts[|ts| - 1]
    decreases |ops|
  {
    if ops != [] {
      AdmittedStep(e, ops, sha1);
      RunClock(Apply(e, ops[0], sha1), ops[1..], sha1);
    }
  }

  /** The first admitted analysis of a run comes at least 8 s after the
      clock the run starts with. */
  lemma {:induction false} AdmittedFirst(e: Engine, ops: seq<Op>, sha1: string -> seq<Byte>)
    ensures var ts := Admitted(e, ops, sha1); ts != [] ==> ts[0] - e.lastAnalysis >= RateLimitMs
    decreases |ops|
  {
    if ops != [] {
      AdmittedStep(e, ops, sha1);
      AdmittedFirst(Apply(e, ops[0], sha1), ops[1..], sha1);
    }
  }

  /** Each admitted analysis of a run comes at least 8 s after the one
      before it. */
  lemma {:induction false} AdmittedSpacing(e: Engine, ops: seq<Op>, sha1: string -> seq<Byte>)
    ensures var ts := Admitted(e, ops, sha1);
      forall i :: 0 < i < |ts| ==> ts[i] - ts[i - 1] >= RateLimitMs
    decreases |ops|
  {
    if ops != [] {
      var e1 := Apply(e, ops[0], sha1);
      AdmittedStep(e, ops, sha1);
      AdmittedSpacing(e1, ops[1..], sha1);
      AdmittedFirst(e1, ops[1..], sha1);
      var head := AdmittedBy(e, ops[0]);
      var rest := Admitted(e1, ops[1..], sha1);
      var ts := head + rest;
      forall i | 0 < i < |ts| ensures ts[i] - ts[i - 1] >= RateLimitMs {
        if head != [] {
          assert ts[i] == rest[i - 1];
          if i == 1 {
            assert ts[0] == e1.lastAnalysis;
          } else {
            assert ts[i - 1] == rest[i - 2];
          }
        } else {
          assert ts[i] == rest[i] && ts[i - 1] == rest[i - 1];
        }
      }
    }
  }

  /** Any two admitted analyses of a run are at least 8 s apart per step
      between them, however the clock moves in between. */
  lemma AdmittedSpread(e: Engine, ops: seq<Op>, sha1: string -> seq<Byte>, i: nat, j: nat)
    requires i <= j < |Admitted(e, ops, sha1)|
    ensures var ts := Admitted(e, ops, sha1); ts[j] - ts[i] >= RateLimitMs * (j - i)
    decreases j - i
  {
    AdmittedSpacing(e, ops, sha1);
    if i < j {
      AdmittedSpread(e, ops, sha1, i, j - 1);
    }
  }

  /** An analysis only appends events. */
  lemma AnalysisEventsGrow(e: Engine, f: Frame, sha1: string -> seq<Byte>)
    ensures |e.events| <= |AfterAnalysis(e, f, sha1).events|
    ensures AfterAnalysis(e, f, sha1).events[..|e.events|] == e.events
  {
    var e' := AfterAnalysis(e, f, sha1);
    if Admits(e, f) && f.captured && f.oracle.Answered? {
      var e1 := e.(lastAnalysis := f.now);
      assert e' == AfterResult(e1, sha1, f.oracle.result, f.voteTs);
      ResultKeepsEvents(e1, sha1, f.oracle.result, f.voteTs);
    } else {
      assert e'.events == e.events;
      assert e'.events[..|e.events|] == e.events;
    }
  }

  /** The event log of a run only grows. */
  lemma {:induction false} RunKeepsEvents(e: Engine, ops: seq<Op>, sha1: string -> seq<Byte>)
    ensures |e.events| <= |Run(e, ops, sha1).events|
    ensures Run(e, ops, sha1).events[..|e.events|] == e.events
    decreases |ops|
  {
    if ops != [] {
      var e1 := Apply(e, ops[0], sha1);
      match ops[0] {
        case Analyze(f) => AnalysisEventsGrow(e, f, sha1);
        case TickAt(now) => assert e1.events[..|e.events|] == e.events;
        case Stop => assert e1.events[..|e.events|] == e.events;
      }
      RunKeepsEvents(e1, ops[1..], sha1);
      var en := Run(e, ops, sha1);
      assert en.events[..|e.events|] == en.events[..|e1.events|][..|e.events|];
    }
  }
}

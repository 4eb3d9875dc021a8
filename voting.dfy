/** The finalisation policy that `tick` applies to the most recent votes of
    the active question: the sliding window, the grouping of its votes by
    answer (in the order answers are first seen, as a JavaScript Map keeps
    them), the winning group (largest count, first seen on ties), its mean
    confidence and its highest-confidence vote (earliest on ties). */
module Voting {
  import opened Types

  const StabilityWindowSize: nat := 3
  const StabilityVoteThreshold: nat := 2
  const StabilityConfidenceThreshold: real := 0.7
  const StabilityTimeMs: int := 15000
  /** Age past which a short window is accepted with a quorum of one. */
  const StaleWindowMs: int := 20000

  /** `votes.slice(-STABILITY_WINDOW_SIZE)` */
  function Window(votes: seq<Vote>): (w: seq<Vote>)
    ensures |w| == if |votes| < StabilityWindowSize then |votes| else StabilityWindowSize
    ensures w == votes[|votes| - |w|..]
  {
    if |votes| < StabilityWindowSize then votes else votes[|votes| - StabilityWindowSize..]
  }

  /** Whether the window has aged enough to be evaluated: a full window
      when its oldest vote is at least 15 s old, a short non-empty one when
      its oldest vote is more than 20 s old. */
  predicate Ripe(w: seq<Vote>, now: int)
  {
    if |w| < StabilityWindowSize then |w| >= 1 && now - w[0].ts > StaleWindowMs
    else now - w[0].ts >= StabilityTimeMs
  }

  /** The number of same-answer votes the winning group needs. */
  function Quorum(windowSize: nat): nat
  {
    if windowSize < StabilityWindowSize then 1 else StabilityVoteThreshold
  }

  // ---------------------------------------------------------------------
  // Reference definitions over the window
  // ---------------------------------------------------------------------

  /** The votes of `w` for answer `a`, in window order. */
  function Filter(w: seq<Vote>, a: string): seq<Vote>
  {
    if w == [] then []
    else Filter(w[..|w| - 1], a) + (if w[|w| - 1].answerId == a then [w[|w| - 1]] else [])
  }

  /** The distinct answers of `w`, in the order they first occur. */
  function FirstSeen(w: seq<Vote>): seq<string>
  {
    if w == [] then []
    else
      var p := FirstSeen(w[..|w| - 1]);
      if w[|w| - 1].answerId in p then p else p + [w[|w| - 1].answerId]
  }

  predicate Distinct(s: seq<string>)
  {
    forall i, j :: 0 <= i < j < |s| ==> s[i] != s[j]
  }

  lemma {:induction false} FirstSeenFacts(w: seq<Vote>)
    ensures Distinct(FirstSeen(w))
    ensures forall a :: a in FirstSeen(w) <==> Filter(w, a) != []
  {
    if w != [] {
      FirstSeenFacts(w[..|w| - 1]);
    }
  }

  // ---------------------------------------------------------------------
  // The grouping loop of tick
  // ---------------------------------------------------------------------

  /** One entry of the `voteCounts` map: an answer, its count and its votes. */
  datatype Group = Group(answerId: string, count: nat, votes: seq<Vote>)

  /** One pass of the `forEach` body: bump the group of `v`'s answer, or add
      a new group at the end; an existing key keeps its place. */
  function AddVote(gs: seq<Group>, v: Vote): seq<Group>
  {
    if gs == [] then [Group(v.answerId, 1, [v])]
    else if gs[0].answerId == v.answerId then [Group(gs[0].answerId, gs[0].count + 1, gs[0].votes + [v])] + gs[1..]
    else [gs[0]] + AddVote(gs[1..], v)
  }

  /** The groups after the loop has run over all of `w`. */
  function Tally(w: seq<Vote>): seq<Group>
  {
    if w == [] then [] else AddVote(Tally(w[..|w| - 1]), w[|w| - 1])
  }

  function Keys(gs: seq<Group>): seq<string>
  {
    if gs == [] then [] else [gs[0].answerId] + Keys(gs[1..])
  }

  /** The votes of the first group keyed `a`, or none. */
  function Lookup(gs: seq<Group>, a: string): seq<Vote>
  {
    if gs == [] then [] else if gs[0].answerId == a then gs[0].votes else Lookup(gs[1..], a)
  }

  predicate CountsMatch(gs: seq<Group>)
  {
    forall i :: 0 <= i < |gs| ==> gs[i].count == |gs[i].votes|
  }

  lemma {:induction false} AddVoteFacts(gs: seq<Group>, v: Vote)
    ensures Keys(AddVote(gs, v)) == if v.answerId in Keys(gs) then Keys(gs) else Keys(gs) + [v.answerId]
    ensures forall a :: Lookup(AddVote(gs, v), a) == Lookup(gs, a) + (if a == v.answerId then [v] else [])
    ensures CountsMatch(gs) ==> CountsMatch(AddVote(gs, v))
  {
    if gs != [] && gs[0].answerId != v.answerId {
      AddVoteFacts(gs[1..], v);
      var r := AddVote(gs, v);
      assert r[1..] == AddVote(gs[1..], v);
      assert CountsMatch(gs) ==> CountsMatch(gs[1..]);
    } else if gs != [] {
      var r := AddVote(gs, v);
      assert r[1..] == gs[1..];
    }
  }

  lemma {:induction false} LookupOfKey(gs: seq<Group>, i: nat)
    requires Distinct(Keys(gs)) && i < |gs|
    ensures Lookup(gs, gs[i].answerId) == gs[i].votes
  {
    if i > 0 {
      assert Keys(gs)[0] == gs[0].answerId;
      KeysAt(gs, i);
      assert Keys(gs[1..]) == Keys(gs)[1..];
      LookupOfKey(gs[1..], i - 1);
    }
  }

  lemma {:induction false} KeysAt(gs: seq<Group>, i: nat)
    requires i < |gs|
    ensures |Keys(gs)| == |gs| && Keys(gs)[i] == gs[i].answerId
  {
    if i > 0 { KeysAt(gs[1..], i - 1); } else { KeysLength(gs); }
  }

  lemma {:induction false} KeysLength(gs: seq<Group>)
    ensures |Keys(gs)| == |gs|
  {
    if gs != [] { KeysLength(gs[1..]); }
  }

  /** The grouping is faithful: its keys are the window's answers in the
      order they first occur, each group holds exactly the window's votes
      for its answer, in window order, and each count is its group's size. */
  lemma {:induction false} TallyFacts(w: seq<Vote>)
    ensures Keys(Tally(w)) == FirstSeen(w)
    ensures forall a :: Lookup(Tally(w), a) == Filter(w, a)
    ensures CountsMatch(Tally(w))
  {
    if w != [] {
      TallyFacts(w[..|w| - 1]);
      AddVoteFacts(Tally(w[..|w| - 1]), w[|w| - 1]);
    }
  }

  /** The same facts read off group by group. */
  lemma TallyGroups(w: seq<Vote>)
    ensures |Tally(w)| == |FirstSeen(w)|
    ensures forall i :: 0 <= i < |Tally(w)| ==>
      Tally(w)[i].answerId == FirstSeen(w)[i] &&
      Tally(w)[i].votes == Filter(w, Tally(w)[i].answerId) != [] &&
      Tally(w)[i].count == |Tally(w)[i].votes|
  {
    var gs := Tally(w);
    TallyFacts(w);
    FirstSeenFacts(w);
    KeysLength(gs);
    forall i | 0 <= i < |gs|
      ensures gs[i].answerId == FirstSeen(w)[i] && gs[i].votes == Filter(w, gs[i].answerId) != []
    {
      KeysAt(gs, i);
      LookupOfKey(gs, i);
    }
  }

  /** The `forEach` over the window that builds `voteCounts`. */
  method CountVotes(w: seq<Vote>) returns (groups: seq<Group>)
    ensures groups == Tally(w)
  {
    groups := [];
    for i := 0 to |w|
      invariant groups == Tally(w[..i])
    {
      assert w[..i + 1][..i] == w[..i];
      groups := AddVote(groups, w[i]);
    }
    assert w[..|w|] == w;
  }

  // ---------------------------------------------------------------------
  // Winner, mean and best vote
  // ---------------------------------------------------------------------

  /** The first group of maximal count: element 0 of a stable sort by
      descending count. */
  function WinnerIndex(gs: seq<Group>): (k: nat)
    requires gs != []
    ensures k < |gs|
    ensures forall j :: 0 <= j < |gs| ==> gs[j].count <= gs[k].count
    ensures forall j :: 0 <= j < k ==> gs[j].count < gs[k].count
  {
    if |gs| == 1 then 0
    else
      var k := WinnerIndex(gs[1..]);
      if gs[0].count >= gs[k + 1].count then 0 else k + 1
  }

  /** The first vote of maximal confidence: element 0 of a stable sort by
      descending confidence. */
  function BestIndex(vs: seq<Vote>): (k: nat)
    requires vs != []
    ensures k < |vs|
    ensures forall j :: 0 <= j < |vs| ==> vs[j].confidence <= vs[k].confidence
    ensures forall j :: 0 <= j < k ==> vs[j].confidence < vs[k].confidence
  {
    if |vs| == 1 then 0
    else
      var k := BestIndex(vs[1..]);
      if vs[0].confidence >= vs[k + 1].confidence then 0 else k + 1
  }

  /** The group's highest-confidence vote, the earliest among equals. */
  function BestVote(vs: seq<Vote>): Vote
    requires vs != []
  {
    vs[BestIndex(vs)]
  }

  /** `votes.reduce((acc, v) => acc + v.confidence, 0)` */
  function Sum(vs: seq<Vote>): real
  {
    if vs == [] then 0.0 else Sum(vs[..|vs| - 1]) + vs[|vs| - 1].confidence
  }

  function Mean(vs: seq<Vote>): real
    requires vs != []
  {
    Sum(vs) / (|vs| as real)
  }

  lemma {:induction false} SumAtLeast(vs: seq<Vote>, lo: real)
    requires forall j :: 0 <= j < |vs| ==> lo <= vs[j].confidence
    ensures (|vs| as real) * lo <= Sum(vs)
  {
    if vs != [] {
      SumAtLeast(vs[..|vs| - 1], lo);
    }
  }

  lemma {:induction false} SumAtMost(vs: seq<Vote>, hi: real)
    requires forall j :: 0 <= j < |vs| ==> vs[j].confidence <= hi
    ensures Sum(vs) <= (|vs| as real) * hi
  {
    if vs != [] {
      SumAtMost(vs[..|vs| - 1], hi);
    }
  }

  /** The mean lies between the group's smallest confidence and the
      confidence of its best vote, so within 0..1 when every vote is. */
  lemma MeanBounds(vs: seq<Vote>, lo: real)
    requires vs != []
    requires forall j :: 0 <= j < |vs| ==> lo <= vs[j].confidence
    ensures lo <= Mean(vs) <= BestVote(vs).confidence
  {
    MeanAtLeast(vs, lo);
    MeanAtMost(vs);
  }

  lemma MeanAtLeast(vs: seq<Vote>, lo: real)
    requires vs != []
    requires forall j :: 0 <= j < |vs| ==> lo <= vs[j].confidence
    ensures lo <= Mean(vs)
  {
    SumAtLeast(vs, lo);
    DivideAtLeast(Sum(vs), |vs| as real, lo);
  }

  lemma MeanAtMost(vs: seq<Vote>)
    requires vs != []
    ensures Mean(vs) <= BestVote(vs).confidence
  {
    var hi := BestVote(vs).confidence;
    SumAtMost(vs, hi);
    DivideAtMost(Sum(vs), |vs| as real, hi);
  }

  lemma DivideAtLeast(s: real, n: real, lo: real)
    requires n > 0.0 && n * lo <= s
    ensures lo <= s / n
  {
  }

  lemma DivideAtMost(s: real, n: real, hi: real)
    requires n > 0.0 && s <= n * hi
    ensures s / n <= hi
  {
  }

  lemma TallyNonEmpty(w: seq<Vote>)
    requires w != []
    ensures Tally(w) != []
  {
  }

  /** The answer of the winning group. */
  function Winner(w: seq<Vote>): string
    requires w != []
  {
    TallyNonEmpty(w);
    var gs := Tally(w);
    gs[WinnerIndex(gs)].answerId
  }

  /** The winning answer is one the window holds, and its group is exactly
      the window's votes for it. */
  lemma WinnerVoted(w: seq<Vote>)
    requires w != []
    ensures Filter(w, Winner(w)) != [] && Winner(w) in FirstSeen(w)
  {
    TallyGroups(w);
    FirstSeenFacts(w);
    TallyNonEmpty(w);
    var gs := Tally(w);
    var k := WinnerIndex(gs);
    assert gs[k].answerId == Winner(w);
  }

  /** No answer has more votes in the window than the winning one. */
  lemma WinnerMaximal(w: seq<Vote>)
    requires w != []
    ensures forall b :: |Filter(w, b)| <= |Filter(w, Winner(w))|
  {
    TallyGroups(w);
    FirstSeenFacts(w);
    TallyNonEmpty(w);
    var gs := Tally(w);
    var k := WinnerIndex(gs);
    var a := Winner(w);
    assert gs[k].answerId == a;
    forall b ensures |Filter(w, b)| <= |Filter(w, a)| {
      if b in FirstSeen(w) {
        var j :| 0 <= j < |FirstSeen(w)| && FirstSeen(w)[j] == b;
        assert gs[j].count <= gs[k].count;
      }
    }
  }

  /** Among answers tied on the count, the winner is the one seen first. */
  lemma WinnerFirstOnTies(w: seq<Vote>)
    requires w != []
    ensures forall i :: 0 <= i < |FirstSeen(w)| && |Filter(w, FirstSeen(w)[i])| == |Filter(w, Winner(w))| ==>
      Winner(w) in FirstSeen(w)[..i + 1]
  {
    TallyGroups(w);
    TallyNonEmpty(w);
    var gs := Tally(w);
    var k := WinnerIndex(gs);
    var a := Winner(w);
    assert gs[k].answerId == a;
    forall i | 0 <= i < |FirstSeen(w)| && |Filter(w, FirstSeen(w)[i])| == |Filter(w, a)|
      ensures a in FirstSeen(w)[..i + 1]
    {
      assert FirstSeen(w)[..i + 1][k] == a;
    }
  }

  /** The tick's verdict on a ripe window: the cached best answer to
      finalise with, or none. */
  function Decide(w: seq<Vote>): Option<Best>
  {
    var gs := Tally(w);
    if gs == [] then None
    else
      var g := gs[WinnerIndex(gs)];
      if g.answerId == "" then None
      else
        TallyGroups(w);
        var avg := Mean(g.votes);
        if g.count >= Quorum(|w|) && avg >= StabilityConfidenceThreshold then
          var bestVote := BestVote(g.votes);
          Some(Best(bestVote.answerId, avg, bestVote.instruction))
        else None
  }

  /** The verdict in terms of the window alone: finalise iff the winning
      answer is non-empty, has at least the quorum of votes and a mean
      confidence of at least 0.7; then the best answer is the winning
      answer with the instruction of its highest-confidence vote and the
      group's mean confidence. */
  lemma DecideSpec(w: seq<Vote>)
    requires w != []
    ensures var a := Winner(w); var g := Filter(w, a);
      Decide(w) ==
        if a != "" && |g| >= Quorum(|w|) && Mean(g) >= StabilityConfidenceThreshold
        then Some(Best(a, Mean(g), BestVote(g).instruction))
        else None
  {
    var a := Winner(w);
    var g := Filter(w, a);
    TallyGroups(w);
    TallyFacts(w);
    FirstSeenFacts(w);
    var gs := Tally(w);
    var k := WinnerIndex(gs);
    assert gs[k].answerId == a;
    var bv := g[BestIndex(g)];
    assert bv.answerId == a by { FilterAnswers(w, a, BestIndex(g)); }
  }

  lemma {:induction false} FilterAnswers(w: seq<Vote>, a: string, i: nat)
    requires i < |Filter(w, a)|
    ensures Filter(w, a)[i].answerId == a
  {
    if w != [] && i < |Filter(w[..|w| - 1], a)| {
      FilterAnswers(w[..|w| - 1], a, i);
    }
  }

  lemma {:induction false} FilterOfDistinct(w: seq<Vote>, a: string)
    requires forall i, j :: 0 <= i < j < |w| ==> w[i].answerId != w[j].answerId
    ensures |Filter(w, a)| <= 1
  {
    if w != [] {
      var p := w[..|w| - 1];
      FilterOfDistinct(p, a);
      if w[|w| - 1].answerId == a && Filter(p, a) != [] {
        FilterAnswers(p, a, 0);
        FilterMember(p, a, 0);
      }
    }
  }

  lemma {:induction false} FilterMember(w: seq<Vote>, a: string, i: nat)
    requires i < |Filter(w, a)|
    ensures Filter(w, a)[i] in w
  {
    if w != [] && i < |Filter(w[..|w| - 1], a)| {
      FilterMember(w[..|w| - 1], a, i);
    }
  }

  /** A full window of three different answers has no group of two, so it
      never finalises. */
  lemma ThreeDistinctAnswersNeverFinalize(w: seq<Vote>)
    requires |w| == StabilityWindowSize
    requires w[0].answerId != w[1].answerId && w[1].answerId != w[2].answerId && w[0].answerId != w[2].answerId
    ensures Decide(w) == None
  {
    DecideSpec(w);
    FilterOfDistinct(w, Winner(w));
  }

  /** A window whose votes all name the same answer with confidence at
      least 0.7 finalises on that answer, with the mean confidence of the
      whole window and the instruction of its highest-confidence vote. */
  lemma UnanimousWindowFinalizes(w: seq<Vote>, a: string)
    requires w != [] && a != ""
    requires forall i :: 0 <= i < |w| ==> w[i].answerId == a && w[i].confidence >= StabilityConfidenceThreshold
    ensures Decide(w) == Some(Best(a, Mean(w), BestVote(w).instruction))
  {
    TallyUnanimous(w, a);
    MeanBounds(w, StabilityConfidenceThreshold);
    assert |w| >= Quorum(|w|);
  }

  lemma {:induction false} FilterAll(w: seq<Vote>, a: string)
    requires forall i :: 0 <= i < |w| ==> w[i].answerId == a
    ensures Filter(w, a) == w
    ensures forall b :: b != a ==> Filter(w, b) == []
  {
    if w != [] {
      FilterAll(w[..|w| - 1], a);
      assert w[..|w| - 1] + [w[|w| - 1]] == w;
    }
  }

  lemma {:induction false} TallyUnanimous(w: seq<Vote>, a: string)
    requires w != []
    requires forall i :: 0 <= i < |w| ==> w[i].answerId == a
    ensures Tally(w) == [Group(a, |w|, w)]
  {
    if |w| == 1 {
      assert w[..0] == [];
      assert w == [w[0]];
    } else {
      TallyUnanimous(w[..|w| - 1], a);
      assert w[..|w| - 1] + [w[|w| - 1]] == w;
    }
  }
}

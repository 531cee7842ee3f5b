/** The gateway's greedy diversity re-ranking (`rankChunksWithDiversity`, chat function).
    Each round scans the remaining candidates, skips those whose source already has
    `maxPerSource` picks, scores the others by similarity minus 0.08 per earlier pick from
    the same source, and moves the first best-scoring one to the selection. Similarities
    are reals; the floating-point rounding of the service is not modelled. */
module Ranking {

  import opened Chat

  datatype RankedChunk = RankedChunk(chunk: ChunkRow, sourcePenalty: real, mmrScore: real)

  /** The chunks of a selection, in order. */
  function Picked(sel: seq<RankedChunk>): (r: seq<ChunkRow>)
    ensures |r| == |sel| && forall k :: 0 <= k < |sel| ==> r[k] == sel[k].chunk
  {
    seq(|sel|, k requires 0 <= k < |sel| => sel[k].chunk)
  }

  lemma PickedAppend(sel: seq<RankedChunk>, x: RankedChunk)
    ensures Picked(sel + [x]) == Picked(sel) + [x.chunk]
  {
  }

  /** How many of `s` come from source `src` (`sourceCounts.get(src) ?? 0`). */
  function SourceCount(s: seq<ChunkRow>, src: string): nat {
    if s == [] then 0
    else SourceCount(s[..|s| - 1], src) + (if s[|s| - 1].sourceId == src then 1 else 0)
  }

  lemma SourceCountAppend(s: seq<ChunkRow>, x: ChunkRow, src: string)
    ensures SourceCount(s + [x], src) == SourceCount(s, src) + (if x.sourceId == src then 1 else 0)
  {
    assert (s + [x])[..|s|] == s;
  }

  /** A candidate may still be picked while its source is below the cap. */
  predicate Eligible(c: ChunkRow, picked: seq<ChunkRow>, maxPerSource: int) {
    SourceCount(picked, c.sourceId) < maxPerSource
  }

  function Penalty(c: ChunkRow, picked: seq<ChunkRow>): real {
    SourceCount(picked, c.sourceId) as real * 0.08
  }

  function Score(c: ChunkRow, picked: seq<ChunkRow>): real {
    c.similarity - Penalty(c, picked)
  }

  /** The index the inner loop settles on after scanning `rem[..n]`: -1 while no candidate
      is eligible, and a later candidate only replaces the best so far with a strictly
      greater score. */
  function Best(rem: seq<ChunkRow>, n: nat, picked: seq<ChunkRow>, maxPerSource: int): (b: int)
    requires n <= |rem|
    ensures -1 <= b < n
  {
    if n == 0 then -1
    else
      var b := Best(rem, n - 1, picked, maxPerSource);
      if Eligible(rem[n - 1], picked, maxPerSource) && (b == -1 || Score(rem[n - 1], picked) > Score(rem[b], picked))
      then n - 1
      else b
  }

  /** The scan finds the first eligible candidate of maximal score, and none exactly when
      no candidate is eligible. */
  lemma {:induction false} BestSpec(rem: seq<ChunkRow>, n: nat, picked: seq<ChunkRow>, maxPerSource: int)
    requires n <= |rem|
    ensures var b := Best(rem, n, picked, maxPerSource);
      && (b == -1 <==> forall i :: 0 <= i < n ==> !Eligible(rem[i], picked, maxPerSource))
      && (b >= 0 ==> Eligible(rem[b], picked, maxPerSource))
      && (b >= 0 ==> forall i :: 0 <= i < n && Eligible(rem[i], picked, maxPerSource) ==>
                       Score(rem[i], picked) <= Score(rem[b], picked))
      && (b >= 0 ==> forall i :: 0 <= i < b && Eligible(rem[i], picked, maxPerSource) ==>
                       Score(rem[i], picked) < Score(rem[b], picked))
  {
    if n > 0 {
      BestSpec(rem, n - 1, picked, maxPerSource);
    }
  }

  /** `remaining.splice(index, 1)`. */
  function RemoveAt(s: seq<ChunkRow>, i: nat): (r: seq<ChunkRow>)
    requires i < |s|
    ensures |r| == |s| - 1
    ensures multiset(r) + multiset{s[i]} == multiset(s)
  {
    assert s == s[..i] + [s[i]] + s[i + 1..];
    s[..i] + s[i + 1..]
  }

  /** The record pushed for a winner. */
  function Record(c: ChunkRow, picked: seq<ChunkRow>): RankedChunk {
    RankedChunk(c, Penalty(c, picked), Score(c, picked))
  }

  /** The rounds from a state (`remaining`, `selected`) to the end: the loop stops when no
      candidate is left, when `maxFinal` are selected, or when no candidate is eligible. */
  function RankFrom(rem: seq<ChunkRow>, sel: seq<RankedChunk>, maxFinal: int, maxPerSource: int): seq<RankedChunk>
    decreases |rem|
  {
    if |rem| == 0 || |sel| >= maxFinal then sel
    else
      var b := Best(rem, |rem|, Picked(sel), maxPerSource);
      if b == -1 then sel
      else RankFrom(RemoveAt(rem, b), sel + [Record(rem[b], Picked(sel))], maxFinal, maxPerSource)
  }

  /** `rankChunksWithDiversity`, as a function of its inputs. */
  function Rank(chunks: seq<ChunkRow>, maxFinal: int, maxPerSource: int): seq<RankedChunk> {
    RankFrom(chunks, [], maxFinal, maxPerSource)
  }

  /** One round of `RankFrom`, unfolded. */
  lemma RankFromStep(rem: seq<ChunkRow>, sel: seq<RankedChunk>, maxFinal: int, maxPerSource: int)
    requires |rem| > 0 && |sel| < maxFinal
    ensures var b := Best(rem, |rem|, Picked(sel), maxPerSource);
      RankFrom(rem, sel, maxFinal, maxPerSource) ==
        if b == -1 then sel
        else RankFrom(RemoveAt(rem, b), sel + [Record(rem[b], Picked(sel))], maxFinal, maxPerSource)
  {
  }

  /** A round that picks: the rounds from here are the rounds from the next state. */
  lemma RankFromPicks(rem: seq<ChunkRow>, sel: seq<RankedChunk>, maxFinal: int, maxPerSource: int,
                      b: int, rem': seq<ChunkRow>, sel': seq<RankedChunk>)
    requires |rem| > 0 && |sel| < maxFinal
    requires 0 <= b == Best(rem, |rem|, Picked(sel), maxPerSource)
    requires rem' == RemoveAt(rem, b) && sel' == sel + [Record(rem[b], Picked(sel))]
    ensures RankFrom(rem, sel, maxFinal, maxPerSource) == RankFrom(rem', sel', maxFinal, maxPerSource)
  {
    RankFromStep(rem, sel, maxFinal, maxPerSource);
  }

  function Count(counts: map<string, nat>, src: string): nat {
    if src in counts then counts[src] else 0
  }

  /** `sourceCounts` after a pick still counts the selection by source. */
  lemma CountsAfterPick(counts: map<string, nat>, sel: seq<RankedChunk>, x: RankedChunk)
    requires forall src :: Count(counts, src) == SourceCount(Picked(sel), src)
    ensures forall src :: Count(counts[x.chunk.sourceId := Count(counts, x.chunk.sourceId) + 1], src)
                          == SourceCount(Picked(sel + [x]), src)
  {
    PickedAppend(sel, x);
    forall src ensures SourceCount(Picked(sel) + [x.chunk], src)
                       == SourceCount(Picked(sel), src) + (if x.chunk.sourceId == src then 1 else 0) {
      SourceCountAppend(Picked(sel), x.chunk, src);
    }
  }

  /** The loop, with `sourceCounts` as a map and `remaining` spliced in place of the
      winner. `Number.NEGATIVE_INFINITY` as the initial best score is modelled by the
      empty best index: every finite score beats it. */
  method RankChunksWithDiversity(chunks: seq<ChunkRow>, maxFinal: int, maxPerSource: int)
    returns (selected: seq<RankedChunk>)
    ensures selected == Rank(chunks, maxFinal, maxPerSource)
  {
    selected := [];
    var sourceCounts: map<string, nat> := map[];
    var remaining := chunks;
    while |remaining| > 0 && |selected| < maxFinal
      invariant RankFrom(remaining, selected, maxFinal, maxPerSource) == Rank(chunks, maxFinal, maxPerSource)
      invariant forall src :: Count(sourceCounts, src) == SourceCount(Picked(selected), src)
      decreases |remaining|
    {
      ghost var picked := Picked(selected);
      var bestIndex, bestScore, bestPenalty := ScanRound(remaining, sourceCounts, picked, maxPerSource);
      RankFromStep(remaining, selected, maxFinal, maxPerSource);
      if bestIndex == -1 {
        break;
      }
      var winner := RankedChunk(remaining[bestIndex], bestPenalty, bestScore);
      assert winner == Record(remaining[bestIndex], picked);
      CountsAfterPick(sourceCounts, selected, winner);
      remaining := RemoveAt(remaining, bestIndex);
      sourceCounts := sourceCounts[winner.chunk.sourceId := Count(sourceCounts, winner.chunk.sourceId) + 1];
      selected := selected + [winner];
    }
  }

  /** The inner loop of a round: the first eligible candidate of best score, with its
      penalty and score, read from `sourceCounts`. */
  method ScanRound(remaining: seq<ChunkRow>, sourceCounts: map<string, nat>, ghost picked: seq<ChunkRow>,
                   maxPerSource: int)
    returns (bestIndex: int, bestScore: real, bestPenalty: real)
    requires forall src :: Count(sourceCounts, src) == SourceCount(picked, src)
    ensures bestIndex == Best(remaining, |remaining|, picked, maxPerSource)
    ensures bestIndex >= 0 ==> bestScore == Score(remaining[bestIndex], picked)
    ensures bestIndex >= 0 ==> bestPenalty == Penalty(remaining[bestIndex], picked)
  {
    bestIndex := -1;
    bestScore := 0.0;
    bestPenalty := 0.0;
    var index := 0;
    while index < |remaining|
      invariant 0 <= index <= |remaining|
      invariant bestIndex == Best(remaining, index, picked, maxPerSource)
      invariant bestIndex >= 0 ==> bestScore == Score(remaining[bestIndex], picked)
      invariant bestIndex >= 0 ==> bestPenalty == Penalty(remaining[bestIndex], picked)
    {
      var candidate := remaining[index];
      var sourceCount := Count(sourceCounts, candidate.sourceId);
      if sourceCount < maxPerSource {
        var penalty := sourceCount as real * 0.08;
        var score := candidate.similarity - penalty;
        if bestIndex == -1 || score > bestScore {
          bestScore := score;
          bestIndex := index;
          bestPenalty := penalty;
        }
      }
      index := index + 1;
    }
  }

  // ---------------------------------------------------------------------------------------
  // what the selection satisfies

  /** The candidates still unpicked after `prefix`. */
  function Unpicked(chunks: seq<ChunkRow>, prefix: seq<RankedChunk>): multiset<ChunkRow> {
    multiset(chunks) - multiset(Picked(prefix))
  }

  /** Every pick was made while its source was below the cap. */
  predicate AllEligible(sel: seq<RankedChunk>, maxPerSource: int) {
    forall k :: 0 <= k < |sel| ==> Eligible(sel[k].chunk, Picked(sel[..k]), maxPerSource)
  }

  /** The pick `x` made after `prefix` was an unpicked candidate, is recorded with its
      penalty and score, and no eligible unpicked candidate scored higher. */
  predicate PickGreedy(chunks: seq<ChunkRow>, prefix: seq<RankedChunk>, x: RankedChunk, maxPerSource: int) {
    && x.chunk in Unpicked(chunks, prefix)
    && x.sourcePenalty == Penalty(x.chunk, Picked(prefix))
    && x.mmrScore == Score(x.chunk, Picked(prefix))
    && forall c :: c in Unpicked(chunks, prefix) && Eligible(c, Picked(prefix), maxPerSource) ==>
         Score(c, Picked(prefix)) <= x.mmrScore
  }

  predicate AllGreedy(chunks: seq<ChunkRow>, sel: seq<RankedChunk>, maxPerSource: int) {
    forall k :: 0 <= k < |sel| ==> PickGreedy(chunks, sel[..k], sel[k], maxPerSource)
  }

  /** The loop ended for one of its three reasons: `maxFinal` reached, or no unpicked
      candidate is eligible (which includes none being left). */
  predicate Stopped(chunks: seq<ChunkRow>, r: seq<RankedChunk>, maxFinal: int, maxPerSource: int) {
    |r| >= maxFinal || forall c :: c in Unpicked(chunks, r) ==> !Eligible(c, Picked(r), maxPerSource)
  }

  /** The rounds only append, and stop by `maxFinal`. */
  lemma {:induction false} RankFromPrefix(rem: seq<ChunkRow>, sel: seq<RankedChunk>, maxFinal: int, maxPerSource: int)
    ensures var r := RankFrom(rem, sel, maxFinal, maxPerSource);
      |sel| <= |r| && r[..|sel|] == sel && (|r| <= maxFinal || r == sel)
    decreases |rem|
  {
    if |rem| > 0 && |sel| < maxFinal {
      var b := Best(rem, |rem|, Picked(sel), maxPerSource);
      if b != -1 {
        var rem' := RemoveAt(rem, b);
        var sel' := sel + [Record(rem[b], Picked(sel))];
        RankFromPicks(rem, sel, maxFinal, maxPerSource, b, rem', sel');
        RankFromPrefix(rem', sel', maxFinal, maxPerSource);
        var r := RankFrom(rem', sel', maxFinal, maxPerSource);
        assert r[..|sel|] == (r[..|sel'|])[..|sel|];
      } else {
        RankFromStep(rem, sel, maxFinal, maxPerSource);
      }
    }
  }

  /** While the picks and the remaining candidates together make up the input, the
      unpicked candidates are the remaining ones. */
  lemma UnpickedIsRemaining(chunks: seq<ChunkRow>, rem: seq<ChunkRow>, sel: seq<RankedChunk>)
    requires multiset(Picked(sel)) + multiset(rem) == multiset(chunks)
    ensures Unpicked(chunks, sel) == multiset(rem) && multiset(Picked(sel)) <= multiset(chunks)
  {
  }

  /** Moving a candidate from the remaining ones to the picks keeps the two together equal
      to the input. */
  lemma PickKeepsBalance(chunks: seq<ChunkRow>, rem: seq<ChunkRow>, sel: seq<RankedChunk>, b: nat)
    requires multiset(Picked(sel)) + multiset(rem) == multiset(chunks)
    requires b < |rem|
    ensures multiset(Picked(sel + [Record(rem[b], Picked(sel))])) + multiset(RemoveAt(rem, b)) == multiset(chunks)
  {
    PickedAppend(sel, Record(rem[b], Picked(sel)));
  }

  /** A round that finds no eligible candidate leaves none eligible among the unpicked. */
  lemma NoneEligibleStops(chunks: seq<ChunkRow>, rem: seq<ChunkRow>, sel: seq<RankedChunk>, maxFinal: int, maxPerSource: int)
    requires multiset(Picked(sel)) + multiset(rem) == multiset(chunks)
    requires Best(rem, |rem|, Picked(sel), maxPerSource) == -1
    ensures Stopped(chunks, sel, maxFinal, maxPerSource)
  {
    BestSpec(rem, |rem|, Picked(sel), maxPerSource);
    UnpickedIsRemaining(chunks, rem, sel);
    forall c | c in Unpicked(chunks, sel) ensures !Eligible(c, Picked(sel), maxPerSource) {
      var i :| 0 <= i < |rem| && rem[i] == c;
    }
  }

  /** The rounds take candidates out of `remaining` only, and end with none eligible
      unless `maxFinal` is reached. */
  lemma {:induction false} RankFromTakes(chunks: seq<ChunkRow>, rem: seq<ChunkRow>, sel: seq<RankedChunk>,
                                         maxFinal: int, maxPerSource: int)
    requires multiset(Picked(sel)) + multiset(rem) == multiset(chunks)
    ensures var r := RankFrom(rem, sel, maxFinal, maxPerSource);
      multiset(Picked(r)) <= multiset(chunks) && Stopped(chunks, r, maxFinal, maxPerSource)
    decreases |rem|
  {
    UnpickedIsRemaining(chunks, rem, sel);
    if |rem| > 0 && |sel| < maxFinal {
      var b := Best(rem, |rem|, Picked(sel), maxPerSource);
      if b == -1 {
        NoneEligibleStops(chunks, rem, sel, maxFinal, maxPerSource);
      } else {
        PickKeepsBalance(chunks, rem, sel, b);
        RankFromTakes(chunks, RemoveAt(rem, b), sel + [Record(rem[b], Picked(sel))], maxFinal, maxPerSource);
      }
    }
  }

  lemma AllEligibleAppend(sel: seq<RankedChunk>, x: RankedChunk, maxPerSource: int)
    requires AllEligible(sel, maxPerSource) && Eligible(x.chunk, Picked(sel), maxPerSource)
    ensures AllEligible(sel + [x], maxPerSource)
  {
    EachPickAppend(sel, x, (p, y: RankedChunk) => Eligible(y.chunk, Picked(p), maxPerSource));
  }

  /** Every round picks an eligible candidate. */
  lemma {:induction false} RankFromEligible(rem: seq<ChunkRow>, sel: seq<RankedChunk>, maxFinal: int, maxPerSource: int)
    requires AllEligible(sel, maxPerSource)
    ensures AllEligible(RankFrom(rem, sel, maxFinal, maxPerSource), maxPerSource)
    decreases |rem|
  {
    if |rem| > 0 && |sel| < maxFinal {
      var b := Best(rem, |rem|, Picked(sel), maxPerSource);
      BestSpec(rem, |rem|, Picked(sel), maxPerSource);
      if b != -1 {
        var x := Record(rem[b], Picked(sel));
        AllEligibleAppend(sel, x, maxPerSource);
        RankFromEligible(RemoveAt(rem, b), sel + [x], maxFinal, maxPerSource);
      }
    }
  }

  /** A property of every pick given the picks before it survives one more pick that has
      it. */
  lemma EachPickAppend<T>(sel: seq<T>, x: T, holds: (seq<T>, T) -> bool)
    requires forall k :: 0 <= k < |sel| ==> holds(sel[..k], sel[k])
    requires holds(sel, x)
    ensures forall k :: 0 <= k < |sel + [x]| ==> holds((sel + [x])[..k], (sel + [x])[k])
  {
    var t := sel + [x];
    forall k | 0 <= k < |t| ensures holds(t[..k], t[k]) {
      if k < |sel| {
        assert t[..k] == sel[..k] && t[k] == sel[k];
      } else {
        assert t[..k] == sel;
      }
    }
  }

  lemma AllGreedyAppend(chunks: seq<ChunkRow>, sel: seq<RankedChunk>, x: RankedChunk, maxPerSource: int)
    requires AllGreedy(chunks, sel, maxPerSource) && PickGreedy(chunks, sel, x, maxPerSource)
    ensures AllGreedy(chunks, sel + [x], maxPerSource)
  {
    EachPickAppend(sel, x, (p, y) => PickGreedy(chunks, p, y, maxPerSource));
  }

  /** The winner of a round is greedy with respect to the unpicked candidates. */
  lemma RoundGreedy(chunks: seq<ChunkRow>, rem: seq<ChunkRow>, sel: seq<RankedChunk>, maxPerSource: int, b: int)
    requires multiset(Picked(sel)) + multiset(rem) == multiset(chunks)
    requires 0 <= b == Best(rem, |rem|, Picked(sel), maxPerSource)
    ensures PickGreedy(chunks, sel, Record(rem[b], Picked(sel)), maxPerSource)
  {
    var picked := Picked(sel);
    BestSpec(rem, |rem|, picked, maxPerSource);
    assert Unpicked(chunks, sel) == multiset(rem);
    forall c | c in Unpicked(chunks, sel) && Eligible(c, picked, maxPerSource)
      ensures Score(c, picked) <= Score(rem[b], picked)
    {
      assert c in rem;
      var i :| 0 <= i < |rem| && rem[i] == c;
    }
  }

  /** One round keeps the greedy record and the multiset balance. */
  lemma GreedyRound(chunks: seq<ChunkRow>, rem: seq<ChunkRow>, sel: seq<RankedChunk>, maxPerSource: int, b: int)
    requires multiset(Picked(sel)) + multiset(rem) == multiset(chunks)
    requires AllGreedy(chunks, sel, maxPerSource)
    requires 0 <= b == Best(rem, |rem|, Picked(sel), maxPerSource)
    ensures var x := Record(rem[b], Picked(sel));
      && multiset(Picked(sel + [x])) + multiset(RemoveAt(rem, b)) == multiset(chunks)
      && AllGreedy(chunks, sel + [x], maxPerSource)
  {
    var x := Record(rem[b], Picked(sel));
    RoundGreedy(chunks, rem, sel, maxPerSource, b);
    AllGreedyAppend(chunks, sel, x, maxPerSource);
    PickedAppend(sel, x);
  }

  /** Every round picks the best eligible unpicked candidate. */
  lemma {:induction false} RankFromGreedy(chunks: seq<ChunkRow>, rem: seq<ChunkRow>, sel: seq<RankedChunk>,
                                          maxFinal: int, maxPerSource: int)
    requires multiset(Picked(sel)) + multiset(rem) == multiset(chunks)
    requires AllGreedy(chunks, sel, maxPerSource)
    ensures AllGreedy(chunks, RankFrom(rem, sel, maxFinal, maxPerSource), maxPerSource)
    decreases |rem|
  {
    if |rem| > 0 && |sel| < maxFinal {
      var b := Best(rem, |rem|, Picked(sel), maxPerSource);
      if b != -1 {
        GreedyRound(chunks, rem, sel, maxPerSource, b);
        RankFromGreedy(chunks, RemoveAt(rem, b), sel + [Record(rem[b], Picked(sel))], maxFinal, maxPerSource);
      }
    }
  }

  /** Picks that were each eligible leave no source above the cap. */
  lemma {:induction false} CapRespected(sel: seq<RankedChunk>, maxPerSource: int, src: string)
    requires AllEligible(sel, maxPerSource)
    ensures SourceCount(Picked(sel), src) <= if maxPerSource < 0 then 0 else maxPerSource
  {
    if sel != [] {
      var front := sel[..|sel| - 1];
      var x := sel[|sel| - 1];
      assert sel == front + [x];
      assert AllEligible(front, maxPerSource) by {
        forall k | 0 <= k < |front| ensures Eligible(front[k].chunk, Picked(front[..k]), maxPerSource) {
          assert front[..k] == sel[..k] && front[k] == sel[k];
        }
      }
      CapRespected(front, maxPerSource, src);
      PickedAppend(front, x);
      SourceCountAppend(Picked(front), x.chunk, src);
    }
  }

  lemma SubMultisetSize<T>(a: multiset<T>, b: multiset<T>)
    requires a <= b
    ensures |a| <= |b|
  {
    assert b == a + (b - a);
  }

  /** What the re-ranking guarantees: at most `maxFinal` picks and no more than the input
      holds, each input chunk picked at most as often as it occurs, no source above the
      cap; every pick the best eligible unpicked candidate with its penalty and score
      recorded; and the loop ends only for one of its three reasons. */
  lemma RankSpec(chunks: seq<ChunkRow>, maxFinal: int, maxPerSource: int)
    ensures var r := Rank(chunks, maxFinal, maxPerSource);
      && |r| <= |chunks| && (r == [] || |r| <= maxFinal)
      && multiset(Picked(r)) <= multiset(chunks)
      && (forall src :: SourceCount(Picked(r), src) <= if maxPerSource < 0 then 0 else maxPerSource)
      && AllEligible(r, maxPerSource)
      && AllGreedy(chunks, r, maxPerSource)
      && Stopped(chunks, r, maxFinal, maxPerSource)
  {
    assert Picked([]) == [];
    RankFromPrefix(chunks, [], maxFinal, maxPerSource);
    RankFromTakes(chunks, chunks, [], maxFinal, maxPerSource);
    RankFromEligible(chunks, [], maxFinal, maxPerSource);
    RankFromGreedy(chunks, chunks, [], maxFinal, maxPerSource);
    var r := Rank(chunks, maxFinal, maxPerSource);
    SubMultisetSize(multiset(Picked(r)), multiset(chunks));
    forall src ensures SourceCount(Picked(r), src) <= if maxPerSource < 0 then 0 else maxPerSource {
      CapRespected(r, maxPerSource, src);
    }
  }

  // A worked example: three chunks of source A (0.9, 0.85, 0.8), one of B (0.7), at most
  // eight picks and two per source.
  const A1 := ChunkRow(1, "A", 0, "", map[], 0.9)
  const A2 := ChunkRow(2, "A", 1, "", map[], 0.85)
  const A3 := ChunkRow(3, "A", 2, "", map[], 0.8)
  const B1 := ChunkRow(4, "B", 0, "", map[], 0.7)
  const X1 := RankedChunk(A1, 0.0, 0.9)
  const X2 := RankedChunk(A2, 0.08, 0.77)
  const X3 := RankedChunk(B1, 0.0, 0.7)

  lemma ExampleBest1()
    ensures Picked([]) == []
    ensures Best([A1, A2, A3, B1], 4, [], 2) == 0
    ensures Record(A1, []) == X1
  {
    assert Picked([]) == [];
    assert Best([A1, A2, A3, B1], 1, [], 2) == 0;
    assert Best([A1, A2, A3, B1], 2, [], 2) == 0;
    assert Best([A1, A2, A3, B1], 3, [], 2) == 0;
  }

  lemma ExampleRound1(rem: seq<ChunkRow>, sel: seq<RankedChunk>, rem': seq<ChunkRow>, sel': seq<RankedChunk>)
    requires rem == [A1, A2, A3, B1] && sel == [] && rem' == [A2, A3, B1] && sel' == [X1]
    ensures RankFrom(rem, sel, 8, 2) == RankFrom(rem', sel', 8, 2)
  {
    ExampleBest1();
    assert RemoveAt(rem, 0) == rem';
    assert sel + [Record(rem[0], Picked(sel))] == sel';
    RankFromPicks(rem, sel, 8, 2, 0, rem', sel');
  }

  lemma ExampleCounts()
    ensures SourceCount([A1], "A") == 1 && SourceCount([A1], "B") == 0
    ensures SourceCount([A1, A2], "A") == 2 && SourceCount([A1, A2], "B") == 0
    ensures SourceCount([A1, A2, B1], "A") == 2
  {
    SourceCountAppend([], A1, "A");
    SourceCountAppend([], A1, "B");
    assert [] + [A1] == [A1];
    SourceCountAppend([A1], A2, "A");
    SourceCountAppend([A1], A2, "B");
    assert [A1] + [A2] == [A1, A2];
    SourceCountAppend([A1, A2], B1, "A");
    assert [A1, A2] + [B1] == [A1, A2, B1];
  }

  lemma ExampleBest2()
    ensures Picked([X1]) == [A1]
    ensures Best([A2, A3, B1], 3, [A1], 2) == 0
    ensures Record(A2, [A1]) == X2
  {
    assert Picked([X1]) == [A1];
    ExampleCounts();
    assert Best([A2, A3, B1], 1, [A1], 2) == 0;
    assert Best([A2, A3, B1], 2, [A1], 2) == 0;
    assert Penalty(A2, [A1]) == 0.08;
  }

  lemma ExampleBest3()
    ensures Picked([X1, X2]) == [A1, A2]
    ensures Best([A3, B1], 2, [A1, A2], 2) == 1
    ensures Record(B1, [A1, A2]) == X3
  {
    assert Picked([X1, X2]) == [A1, A2];
    ExampleCounts();
    assert Best([A3, B1], 1, [A1, A2], 2) == -1;
    assert Penalty(B1, [A1, A2]) == 0.0;
  }

  lemma ExampleRound2(rem: seq<ChunkRow>, sel: seq<RankedChunk>, rem': seq<ChunkRow>, sel': seq<RankedChunk>)
    requires rem == [A2, A3, B1] && sel == [X1] && rem' == [A3, B1] && sel' == [X1, X2]
    ensures RankFrom(rem, sel, 8, 2) == RankFrom(rem', sel', 8, 2)
  {
    ExampleBest2();
    assert RemoveAt(rem, 0) == rem';
    assert sel + [Record(rem[0], Picked(sel))] == sel';
    RankFromPicks(rem, sel, 8, 2, 0, rem', sel');
  }

  lemma ExampleRound3(rem: seq<ChunkRow>, sel: seq<RankedChunk>, rem': seq<ChunkRow>, sel': seq<RankedChunk>)
    requires rem == [A3, B1] && sel == [X1, X2] && rem' == [A3] && sel' == [X1, X2, X3]
    ensures RankFrom(rem, sel, 8, 2) == RankFrom(rem', sel', 8, 2)
  {
    ExampleBest3();
    assert RemoveAt(rem, 1) == rem';
    assert sel + [Record(rem[1], Picked(sel))] == sel';
    RankFromPicks(rem, sel, 8, 2, 1, rem', sel');
  }

  lemma ExampleRound4(rem: seq<ChunkRow>, sel: seq<RankedChunk>)
    requires rem == [A3] && sel == [X1, X2, X3]
    ensures RankFrom(rem, sel, 8, 2) == [X1, X2, X3]
  {
    assert Picked([X1, X2, X3]) == [A1, A2, B1];
    ExampleCounts();
    assert Best([A3], 1, [A1, A2, B1], 2) == -1;
    RankFromStep(rem, sel, 8, 2);
  }

  /** The example selects A(0.9), then A(0.85) at penalty 0.08 and score 0.77, then B; the
      third A is never eligible. */
  lemma TwoPerSourceExample()
    ensures Rank([A1, A2, A3, B1], 8, 2) == [X1, X2, X3]
  {
    ExampleRound1([A1, A2, A3, B1], [], [A2, A3, B1], [X1]);
    ExampleRound2([A2, A3, B1], [X1], [A3, B1], [X1, X2]);
    ExampleRound3([A3, B1], [X1, X2], [A3], [X1, X2, X3]);
    ExampleRound4([A3], [X1, X2, X3]);
  }
}

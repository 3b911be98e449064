/** tryRetrieveFromFIL (filc/retrieval.go:144-272): query every candidate,
    rank the answers, then try them one after another. */
module FilPath {
  import opened Common
  import opened Ranking
  import opened QueryPhase
  import opened SerialDriver

  /** The result tryRetrieveFromFIL is meant to return, given the order in
      which the queries finish. */
  function FilOutcome(market: Market, candidates: seq<RetrievalCandidate>, arrival: seq<RetrievalCandidate>,
                      sel: Selector, cfg: CandidateSelectionConfig): Result<FilRetrievalStats>
  {
    if |candidates| == 0 then Err(NoMinersProvided)
    else
      var queries := Collected(market, arrival);
      if queries == [] then Err(QueriesFailedForAllMiners)
      else SerialOutcome(market, Rank(queries, cfg.noSort), sel)
  }

  /** The FIL path. Besides the result it reports how many queries were
      issued, the collected queries, the order handed to the retrieval loop
      and the loop's proposal and transfer calls (positions in `ranked`). */
  method TryRetrieveFromFil(market: Market, candidates: seq<RetrievalCandidate>, sel: Selector,
                            cfg: CandidateSelectionConfig, arrival: seq<RetrievalCandidate>)
    returns (r: Result<FilRetrievalStats>, issued: nat, queries: seq<CandidateQuery>,
             ranked: seq<CandidateQuery>, proposed: seq<nat>, transferred: seq<nat>)
    requires multiset(arrival) == multiset(candidates)
    ensures r == FilOutcome(market, candidates, arrival, sel, cfg)
    ensures |candidates| == 0 ==> issued == 0 && queries == []
    ensures |candidates| > 0 ==> issued == |candidates| && queries == Collected(market, arrival)
    ensures queries == [] ==> ranked == [] && proposed == [] && transferred == []
    ensures queries != [] ==> ranked == Rank(queries, cfg.noSort)
    ensures cfg.noSort ==> ranked == queries
    ensures proposed == Indices(TriedCount(market, ranked, sel))
    ensures forall t :: t in transferred <==>
      0 <= t < TriedCount(market, ranked, sel) && ProposalFor(market, ranked[t], sel).Some?
  {
    if |candidates| == 0 {
      return Err(NoMinersProvided), 0, [], [], [], [];
    }
    var checked;
    queries, checked, issued := QueryCandidates(market, candidates, arrival);
    if |queries| == 0 {
      return Err(QueriesFailedForAllMiners), issued, queries, [], [], [];
    }
    ranked := Rank(queries, cfg.noSort);
    r, proposed, transferred := RetrieveSerially(market, ranked, sel);
  }

  /** The FIL path succeeds exactly when some candidate answers its query
      and then accepts a proposal and delivers the data; neither the order in
      which the queries finish nor the ranking changes that. */
  lemma FilSucceedsIffSomeCandidateDelivers(market: Market, candidates: seq<RetrievalCandidate>,
                                            arrival: seq<RetrievalCandidate>, sel: Selector,
                                            cfg: CandidateSelectionConfig)
    requires multiset(arrival) == multiset(candidates)
    ensures FilOutcome(market, candidates, arrival, sel, cfg).Ok? <==>
      exists q :: q in Collected(market, candidates) && AttemptOf(market, q, sel).Retrieved?
  {
    CollectedOrderIrrelevant(market, arrival, candidates);
    var queries := Collected(market, arrival);
    var ranked := Rank(queries, cfg.noSort);
    SerialSucceedsIffSomeDelivers(market, ranked, sel);
    assert forall q :: q in ranked <==> q in Collected(market, candidates) by {
      forall q ensures q in ranked <==> q in Collected(market, candidates) {
        assert q in ranked <==> q in multiset(ranked);
        assert q in Collected(market, candidates) <==> q in multiset(Collected(market, candidates));
      }
    }
    if |candidates| == 0 {
      assert Collected(market, candidates) == [];
    }
  }

  /** Returned statistics always come from a candidate whose query, proposal
      and transfer all succeeded. */
  lemma FilStatsComeFromDeliveringCandidate(market: Market, candidates: seq<RetrievalCandidate>,
                                            arrival: seq<RetrievalCandidate>, sel: Selector,
                                            cfg: CandidateSelectionConfig, stats: FilRetrievalStats)
    requires multiset(arrival) == multiset(candidates)
    requires FilOutcome(market, candidates, arrival, sel, cfg) == Ok(stats)
    ensures exists q :: q in Collected(market, candidates) && AttemptOf(market, q, sel) == Retrieved(stats)
  {
    CollectedOrderIrrelevant(market, arrival, candidates);
    var ranked := Rank(Collected(market, arrival), cfg.noSort);
    SerialStatsFromDeliveringCandidate(market, ranked, sel, stats);
    var q :| q in ranked && AttemptOf(market, q, sel) == Retrieved(stats);
    assert q in multiset(ranked);
  }

  /** The query phase fails exactly when there are candidates and every one
      of their queries failed. */
  lemma FilQueriesFailIffNoAnswers(market: Market, candidates: seq<RetrievalCandidate>,
                                   arrival: seq<RetrievalCandidate>, sel: Selector,
                                   cfg: CandidateSelectionConfig)
    requires multiset(arrival) == multiset(candidates)
    ensures FilOutcome(market, candidates, arrival, sel, cfg) == Err(QueriesFailedForAllMiners) <==>
      |candidates| > 0 && forall c :: c in candidates ==> market.query(c.miner, c.rootCid).None?
  {
    CollectedOrderIrrelevant(market, arrival, candidates);
    CollectedEmptyIffNoAnswers(market, candidates);
    assert Collected(market, arrival) == [] <==> Collected(market, candidates) == [] by {
      assert |Collected(market, arrival)| == |multiset(Collected(market, arrival))|;
      assert |Collected(market, candidates)| == |multiset(Collected(market, candidates))|;
    }
  }
}

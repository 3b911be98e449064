/** The query phase of tryRetrieveFromFIL (filc/retrieval.go:164-203): every
    candidate's miner is asked for an ask; the successful answers are
    collected. The goroutines finish in some order, given here as `arrival`. */
module QueryPhase {
  import opened Common

  /** The entry a candidate contributes: its query result, or nothing when
      the query failed. */
  function Entry(market: Market, c: RetrievalCandidate): seq<CandidateQuery> {
    match market.query(c.miner, c.rootCid)
    case Some(resp) => [CandidateQuery(c, resp)]
    case None => []
  }

  /** The successful queries of `cs`, in the order of `cs`. */
  function Collected(market: Market, cs: seq<RetrievalCandidate>): (r: seq<CandidateQuery>)
    ensures |r| <= |cs|
  {
    if cs == [] then []
    else Collected(market, cs[..|cs| - 1]) + Entry(market, cs[|cs| - 1])
  }

  lemma CollectedSnoc(market: Market, s: seq<RetrievalCandidate>, c: RetrievalCandidate)
    ensures Collected(market, s + [c]) == Collected(market, s) + Entry(market, c)
  {
    assert (s + [c])[..|s|] == s;
  }

  lemma {:induction false} CollectedAppend(market: Market, a: seq<RetrievalCandidate>, b: seq<RetrievalCandidate>)
    ensures Collected(market, a + b) == Collected(market, a) + Collected(market, b)
  {
    if b == [] {
      assert a + b == a;
    } else {
      assert (a + b)[..|a + b| - 1] == a + b[..|b| - 1];
      CollectedAppend(market, a, b[..|b| - 1]);
    }
  }

  /** A query result is collected exactly when it is the successful answer
      to one of the candidates. */
  lemma {:induction false} CollectedMembers(market: Market, cs: seq<RetrievalCandidate>, x: CandidateQuery)
    ensures x in Collected(market, cs) <==>
            x.candidate in cs && market.query(x.candidate.miner, x.candidate.rootCid) == Some(x.response)
  {
    if cs != [] {
      var init := cs[..|cs| - 1];
      CollectedMembers(market, init, x);
      assert cs == init + [cs[|cs| - 1]];
      assert x.candidate in cs <==> x.candidate in init || x.candidate == cs[|cs| - 1];
    }
  }

  /** Nothing is collected exactly when every query fails. */
  lemma {:induction false} CollectedEmptyIffNoAnswers(market: Market, cs: seq<RetrievalCandidate>)
    ensures Collected(market, cs) == [] <==> forall c :: c in cs ==> market.query(c.miner, c.rootCid).None?
  {
    if cs != [] {
      var init := cs[..|cs| - 1];
      CollectedEmptyIffNoAnswers(market, init);
      assert cs == init + [cs[|cs| - 1]];
      assert forall c :: c in cs <==> c in init || c == cs[|cs| - 1];
    }
  }

  /** The order in which the queries finish changes only the order of the
      collected results, never which results are collected. */
  lemma {:induction false} CollectedOrderIrrelevant(market: Market, a: seq<RetrievalCandidate>, b: seq<RetrievalCandidate>)
    requires multiset(a) == multiset(b)
    ensures multiset(Collected(market, a)) == multiset(Collected(market, b))
  {
    if a != [] {
      var k := SplitAtLast(a, b);
      var x, init, rest := b[k], a[..|a| - 1], b[..k] + b[k + 1..];
      assert a == init + [x];
      calc {
        multiset(Collected(market, b));
        { CollectedAppend(market, b[..k] + [x], b[k + 1..]); }
        multiset(Collected(market, b[..k] + [x])) + multiset(Collected(market, b[k + 1..]));
        { CollectedSnoc(market, b[..k], x); }
        multiset(Collected(market, b[..k])) + multiset(Entry(market, x)) + multiset(Collected(market, b[k + 1..]));
        { CollectedAppend(market, b[..k], b[k + 1..]); }
        multiset(Collected(market, rest)) + multiset(Entry(market, x));
        { CollectedOrderIrrelevant(market, init, rest); }
        multiset(Collected(market, init)) + multiset(Entry(market, x));
        { CollectedSnoc(market, init, x); }
        multiset(Collected(market, a));
      }
    }
  }

  /** The query fan-out in sequential form. `queries` grows in the order the
      answers arrive; `checked` counts successful queries only; `issued`
      counts the calls to the query oracle. */
  method QueryCandidates(market: Market, candidates: seq<RetrievalCandidate>, arrival: seq<RetrievalCandidate>)
    returns (queries: seq<CandidateQuery>, checked: nat, issued: nat)
    requires multiset(arrival) == multiset(candidates)
    ensures queries == Collected(market, arrival)
    ensures multiset(queries) == multiset(Collected(market, candidates))
    ensures forall x :: x in queries <==>
      x.candidate in candidates && market.query(x.candidate.miner, x.candidate.rootCid) == Some(x.response)
    ensures checked == |queries| <= |candidates|
    ensures issued == |candidates|
  {
    queries, checked, issued := [], 0, 0;
    var k := 0;
    while k < |arrival|
      invariant k <= |arrival|
      invariant queries == Collected(market, arrival[..k])
      invariant checked == |queries|
      invariant issued == k
    {
      var c := arrival[k];
      var resp := market.query(c.miner, c.rootCid);
      issued := issued + 1;
      if resp.Some? {
        queries := queries + [CandidateQuery(c, resp.value)];
        checked := checked + 1;
      }
      assert arrival[..k + 1][..k] == arrival[..k];
      k := k + 1;
    }
    assert arrival[..k] == arrival;
    assert |arrival| == |candidates| by {
      assert |multiset(arrival)| == |multiset(candidates)|;
    }
    CollectedOrderIrrelevant(market, arrival, candidates);
    forall x ensures x in queries <==>
      x.candidate in candidates && market.query(x.candidate.miner, x.candidate.rootCid) == Some(x.response)
    {
      CollectedMembers(market, arrival, x);
      assert x.candidate in arrival <==> x.candidate in multiset(arrival);
    }
  }
}

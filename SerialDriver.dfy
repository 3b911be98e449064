/** The serial retrieval loop of tryRetrieveFromFIL (filc/retrieval.go:234-271):
    the ranked candidates are tried one after another until a proposal and a
    transfer both succeed. */
module SerialDriver {
  import opened Common

  /** What happens when one candidate is tried. */
  datatype Attempt = ProposalFailed | TransferFailed | Retrieved(stats: FilRetrievalStats)

  function ProposalFor(market: Market, q: CandidateQuery, sel: Selector): Option<Proposal> {
    market.propose(q.response, q.candidate.rootCid, sel)
  }

  function AttemptOf(market: Market, q: CandidateQuery, sel: Selector): Attempt {
    match ProposalFor(market, q, sel)
    case None => ProposalFailed
    case Some(p) =>
      match market.transfer(q.candidate.miner, p)
      case None => TransferFailed
      case Some(s) => Retrieved(s)
  }

  /** The position of the first candidate whose retrieval succeeds. */
  function FirstRetrieved(market: Market, ranked: seq<CandidateQuery>, sel: Selector): (k: Option<nat>)
    ensures k.Some? ==> k.value < |ranked| && AttemptOf(market, ranked[k.value], sel).Retrieved?
    ensures k.Some? ==> forall j :: 0 <= j < k.value ==> !AttemptOf(market, ranked[j], sel).Retrieved?
    ensures k.None? ==> forall j :: 0 <= j < |ranked| ==> !AttemptOf(market, ranked[j], sel).Retrieved?
  {
    if ranked == [] then None
    else if AttemptOf(market, ranked[0], sel).Retrieved? then Some(0)
    else
      match FirstRetrieved(market, ranked[1..], sel)
      case Some(k) => Some(k + 1)
      case None => None
  }

  /** The result the loop is meant to produce. */
  function SerialOutcome(market: Market, ranked: seq<CandidateQuery>, sel: Selector): (r: Result<FilRetrievalStats>)
    ensures r.Err? ==> r.error == RetrievalFailedForAllMiners
  {
    match FirstRetrieved(market, ranked, sel)
    case Some(k) => Ok(AttemptOf(market, ranked[k], sel).stats)
    case None => Err(RetrievalFailedForAllMiners)
  }

  /** How many candidates the loop tries: up to and including the first
      success, or all of them. */
  function TriedCount(market: Market, ranked: seq<CandidateQuery>, sel: Selector): (n: nat)
    ensures n <= |ranked|
  {
    match FirstRetrieved(market, ranked, sel)
    case Some(k) => k + 1
    case None => |ranked|
  }

  /** The loop succeeds exactly when one of the ranked candidates delivers. */
  lemma SerialSucceedsIffSomeDelivers(market: Market, ranked: seq<CandidateQuery>, sel: Selector)
    ensures SerialOutcome(market, ranked, sel).Ok? <==>
      exists q :: q in ranked && AttemptOf(market, q, sel).Retrieved?
  {
    if q :| q in ranked && AttemptOf(market, q, sel).Retrieved? {
      var j :| 0 <= j < |ranked| && ranked[j] == q;
    }
  }

  /** Returned statistics are those of a ranked candidate that delivered. */
  lemma SerialStatsFromDeliveringCandidate(market: Market, ranked: seq<CandidateQuery>, sel: Selector,
                                           stats: FilRetrievalStats)
    requires SerialOutcome(market, ranked, sel) == Ok(stats)
    ensures exists q :: q in ranked && AttemptOf(market, q, sel) == Retrieved(stats)
  {
    var k := FirstRetrieved(market, ranked, sel).value;
    assert ranked[k] in ranked;
  }

  /** The loop. `proposed` lists the positions whose proposal was built,
      `transferred` those whose transfer was started, in the order of the
      calls. `stats` stays None until a transfer succeeds. */
  method RetrieveSerially(market: Market, ranked: seq<CandidateQuery>, sel: Selector)
    returns (r: Result<FilRetrievalStats>, proposed: seq<nat>, transferred: seq<nat>)
    ensures r == SerialOutcome(market, ranked, sel)
    ensures proposed == Indices(TriedCount(market, ranked, sel))
    ensures forall t :: t in transferred <==>
      0 <= t < TriedCount(market, ranked, sel) && ProposalFor(market, ranked[t], sel).Some?
    ensures forall a, b :: 0 <= a < b < |transferred| ==> transferred[a] < transferred[b]
  {
    var stats: Option<FilRetrievalStats> := None;
    proposed, transferred := [], [];
    var i := 0;
    while i < |ranked|
      invariant i <= |ranked|
      invariant stats.None?
      invariant proposed == Indices(i)
      invariant forall t :: t in transferred <==> 0 <= t < i && ProposalFor(market, ranked[t], sel).Some?
      invariant forall a, b :: 0 <= a < b < |transferred| ==> transferred[a] < transferred[b]
      invariant forall a :: 0 <= a < |transferred| ==> transferred[a] < i
      invariant forall j :: 0 <= j < i ==> !AttemptOf(market, ranked[j], sel).Retrieved?
    {
      var query := ranked[i];
      assert Indices(i) + [i] == Indices(i + 1);
      proposed := proposed + [i];
      var proposal := market.propose(query.response, query.candidate.rootCid, sel);
      if proposal.None? {
        i := i + 1;
        continue;
      }
      transferred := transferred + [i];
      var received := market.transfer(query.candidate.miner, proposal.value);
      if received.None? {
        i := i + 1;
        continue;
      }
      stats := Some(received.value);
      break;
    }
    if stats.None? {
      r := Err(RetrievalFailedForAllMiners);
    } else {
      r := Ok(stats.value);
    }
  }
}

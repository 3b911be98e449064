/** Shared data model of the retrieval orchestration in filc/retrieval.go:
    identifiers, candidates, query responses, statistics, errors and the
    market client, whose network calls are abstract outcome oracles. */
module Common {

  /** Go's uint64. */
  const UINT64_LIMIT: nat := 0x1_0000_0000_0000_0000
  type uint64 = x: nat | x < UINT64_LIMIT

  datatype Option<+T> = None | Some(value: T) {
    function GetOr(default: T): T {
      match this
      case Some(v) => v
      case None => default
    }
  }

  /** The error values the core returns; one per error site in the source. */
  datatype Error =
    | NoMinersProvided          // "retrieval failed: no miners were provided"
    | QueriesFailedForAllMiners // "retrieval failed: queries failed for all miners"
    | RetrievalFailedForAllMiners // "retrieval failed for all miners"
    | AllRetrievalAttemptsFailed  // "all retrieval attempts failed"
    | ContextDone               // ctx.Err(): no IPFS provider became reachable
    | TraversalFailed           // a block of the DAG could not be fetched

  datatype Result<+T> = Ok(value: T) | Err(error: Error)

  /** Multicodec code of a raw-bytes block (cid.Raw). */
  const RAW_CODEC: nat := 0x55

  /** A content identifier: the codec it names and an opaque digest. */
  datatype Cid = Cid(codec: nat, digest: nat) {
    predicate IsRaw() { codec == RAW_CODEC }
  }

  /** A miner's address, opaque. */
  type Address = nat

  /** The traversal selector argument: a nil interface, an IPLD null node,
      or some other node. */
  datatype Selector = NilSelector | NullSelector | SelectorNode(id: nat) {
    predicate IsNilOrNull() { NilSelector? || NullSelector? }
  }

  /** Per-call options: whether IPFS is tried first, and whether the
      candidates keep the order in which their queries were collected. */
  datatype CandidateSelectionConfig = CandidateSelectionConfig(tryIpfs: bool, noSort: bool)

  datatype RetrievalCandidate = RetrievalCandidate(miner: Address, rootCid: Cid, dealId: nat)

  /** The fields of a miner's query response that the core reads. Prices are
      non-negative attoFIL amounts, the size a byte count. */
  datatype QueryResponse = QueryResponse(unsealPrice: nat, minPricePerByte: nat, size: uint64)

  /** One successful query: the candidate paired with its miner's answer. */
  datatype CandidateQuery = CandidateQuery(candidate: RetrievalCandidate, response: QueryResponse)

  /** Statistics the market client returns for a finished transfer. */
  datatype FilRetrievalStats = FilRetrievalStats(size: uint64, duration: nat, averageSpeed: uint64)

  /** Statistics of a retrieval over IPFS: the leaf bytes counted during the
      walk and the elapsed time. */
  datatype IpfsRetrievalStats = IpfsRetrievalStats(byteSize: nat, duration: nat)

  /** The RetrievalStats interface, as a tagged variant. */
  datatype RetrievalStats = Fil(fil: FilRetrievalStats) | Ipfs(ipfs: IpfsRetrievalStats) {
    function ByteSize(): nat {
      match this
      case Fil(s) => s.size
      case Ipfs(s) => s.byteSize
    }
    function Duration(): nat {
      match this
      case Fil(s) => s.duration
      case Ipfs(s) => s.duration
    }
  }

  /** A retrieval proposal built from an ask, opaque. */
  type Proposal = nat

  /** The market client as three oracles:
      query    — fc.RetrievalQuery(miner, rootCid)
      propose  — retrievehelper.RetrievalProposalForAsk(response, rootCid, selector)
      transfer — fc.RetrieveContentWithProgressCallback(miner, proposal)
      None stands for a returned error. */
  datatype Market = Market(
    query: (Address, Cid) -> Option<QueryResponse>,
    propose: (QueryResponse, Cid, Selector) -> Option<Proposal>,
    transfer: (Address, Proposal) -> Option<FilRetrievalStats>)

  /** The sequence 0, 1, ..., n - 1. */
  function Indices(n: nat): (r: seq<nat>)
    ensures |r| == n
    ensures forall k :: 0 <= k < n ==> r[k] == k
  {
    seq(n, k => k)
  }

  /** Two sequences with the same elements: the last element of `a` sits at
      some position `k` of `b`, and what remains on both sides again has the
      same elements. */
  lemma SplitAtLast<T>(a: seq<T>, b: seq<T>) returns (k: nat)
    requires a != [] && multiset(a) == multiset(b)
    ensures k < |b| && b[k] == a[|a| - 1]
    ensures b == b[..k] + [b[k]] + b[k + 1..]
    ensures multiset(a[..|a| - 1]) == multiset(b[..k] + b[k + 1..])
  {
    var x := a[|a| - 1];
    assert a == a[..|a| - 1] + [x];
    assert x in multiset(b);
    k :| 0 <= k < |b| && b[k] == x;
    assert b == b[..k] + [x] + b[k + 1..];
    assert multiset(a[..|a| - 1]) == multiset(a) - multiset{x};
    assert multiset(b[..k] + b[k + 1..]) == multiset(b) - multiset{x};
  }
}

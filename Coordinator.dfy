/** RetrieveFromBestCandidate (filc/retrieval.go:115-142): IPFS first when
    asked for and no selector is given, then the FIL path, then one generic
    error. */
module Coordinator {
  import opened Common

  /** What one call did: its result and which paths it ran. */
  datatype Run = Run(result: Result<RetrievalStats>, ipfsAttempted: bool, filAttempted: bool)

  predicate IpfsApplies(cfg: CandidateSelectionConfig, sel: Selector) {
    cfg.tryIpfs && sel.IsNilOrNull()
  }

  /** The policy. `ipfs` and `fil` are what each path returns when it is
      run; a path that is not run contributes nothing. */
  function RetrieveFromBestCandidate(cfg: CandidateSelectionConfig, sel: Selector,
                                     ipfs: Result<IpfsRetrievalStats>,
                                     fil: Result<FilRetrievalStats>): (run: Run)
    ensures run.ipfsAttempted <==> cfg.tryIpfs && sel.IsNilOrNull()
    ensures run.filAttempted <==> !(run.ipfsAttempted && ipfs.Ok?)
    ensures run.ipfsAttempted && ipfs.Ok? ==> run.result == Ok(Ipfs(ipfs.value))
    ensures run.filAttempted && fil.Ok? ==> run.result == Ok(Fil(fil.value))
    ensures run.result.Ok? <==> (run.ipfsAttempted && ipfs.Ok?) || (run.filAttempted && fil.Ok?)
    ensures run.result.Err? ==> run.result.error == AllRetrievalAttemptsFailed
  {
    if IpfsApplies(cfg, sel) && ipfs.Ok? then
      Run(Ok(Ipfs(ipfs.value)), true, false)
    else
      var tried := IpfsApplies(cfg, sel);
      match fil
      case Ok(stats) => Run(Ok(Fil(stats)), tried, true)
      case Err(_) => Run(Err(AllRetrievalAttemptsFailed), tried, true)
  }

  /** After an IPFS success the FIL path's outcome plays no part. */
  lemma FilIgnoredAfterIpfsSuccess(cfg: CandidateSelectionConfig, sel: Selector,
                                   ipfs: Result<IpfsRetrievalStats>,
                                   fil1: Result<FilRetrievalStats>, fil2: Result<FilRetrievalStats>)
    requires IpfsApplies(cfg, sel) && ipfs.Ok?
    ensures RetrieveFromBestCandidate(cfg, sel, ipfs, fil1) == RetrieveFromBestCandidate(cfg, sel, ipfs, fil2)
  {
  }

  /** When IPFS does not apply, its outcome plays no part. */
  lemma IpfsIgnoredWhenNotApplicable(cfg: CandidateSelectionConfig, sel: Selector,
                                     ipfs1: Result<IpfsRetrievalStats>, ipfs2: Result<IpfsRetrievalStats>,
                                     fil: Result<FilRetrievalStats>)
    requires !IpfsApplies(cfg, sel)
    ensures RetrieveFromBestCandidate(cfg, sel, ipfs1, fil) == RetrieveFromBestCandidate(cfg, sel, ipfs2, fil)
  {
  }

  /** The distinct path errors are collapsed into one: two calls that both
      fail give the same result whatever the path errors were. */
  lemma PathErrorsCollapse(cfg: CandidateSelectionConfig, sel: Selector,
                           ipfs1: Result<IpfsRetrievalStats>, ipfs2: Result<IpfsRetrievalStats>,
                           fil1: Result<FilRetrievalStats>, fil2: Result<FilRetrievalStats>)
    requires ipfs1.Err? && ipfs2.Err? && fil1.Err? && fil2.Err?
    ensures RetrieveFromBestCandidate(cfg, sel, ipfs1, fil1) == RetrieveFromBestCandidate(cfg, sel, ipfs2, fil2)
  {
  }
}

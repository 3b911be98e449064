/** tryRetrieveFromIPFS (filc/retrieval.go:274-358) once a provider is
    connected: a walk of the content DAG from the root that fetches each
    block once and counts the bytes of the leaf blocks. The block service is
    a finite map from identifiers to blocks; a missing key is a failed fetch. */
module DagWalk {
  import opened Common

  /** A fetched block: its links and its size, None when Size() fails. */
  datatype DagNode = DagNode(links: seq<Cid>, size: Option<uint64>)

  type Dag = map<Cid, DagNode>

  /** The bytes a block adds to the counter: its size when it has no links
      (0 when the size is unavailable), nothing otherwise. */
  function LeafSize(n: DagNode): nat {
    if |n.links| == 0 then n.size.GetOr(0) else 0
  }

  /** The links the walk follows from a fetched block: none for a raw block. */
  function Children(dag: Dag, c: Cid): seq<Cid>
    requires c in dag
  {
    if c.IsRaw() then [] else dag[c].links
  }

  /** b is a link the walk follows out of a (fetched) block a. */
  ghost predicate Step(dag: Dag, a: Cid, b: Cid) {
    a in dag && b in Children(dag, a)
  }

  /** p is a chain of followed links, built up one link at a time. */
  ghost predicate IsPath(dag: Dag, p: seq<Cid>)
    decreases |p|
  {
    |p| == 1 || (|p| > 1 && IsPath(dag, p[..|p| - 1]) && Step(dag, p[|p| - 2], p[|p| - 1]))
  }

  /** c is met by the walk from root: there is a chain of followed links. */
  ghost predicate Reachable(dag: Dag, root: Cid, c: Cid) {
    exists p :: IsPath(dag, p) && p[0] == root && p[|p| - 1] == c
  }

  lemma ReachableRoot(dag: Dag, root: Cid)
    ensures Reachable(dag, root, root)
  {
    assert IsPath(dag, [root]);
  }

  lemma ReachableStep(dag: Dag, root: Cid, a: Cid, b: Cid)
    requires Reachable(dag, root, a) && Step(dag, a, b)
    ensures Reachable(dag, root, b)
  {
    var p :| IsPath(dag, p) && p[0] == root && p[|p| - 1] == a;
    var q := p + [b];
    assert q[..|q| - 1] == p;
    assert IsPath(dag, q);
  }

  lemma {:induction false} PathStaysIn(dag: Dag, p: seq<Cid>, s: set<Cid>)
    requires IsPath(dag, p) && p[0] in s
    requires forall a, b :: a in s && Step(dag, a, b) ==> b in s
    ensures p[|p| - 1] in s
  {
    if |p| > 1 {
      var init := p[..|p| - 1];
      PathStaysIn(dag, init, s);
      assert init[|init| - 1] == p[|p| - 2];
    }
  }

  /** A set holding the root and closed under followed links holds every
      block the walk can meet. */
  lemma ClosedContainsReachable(dag: Dag, root: Cid, s: set<Cid>)
    requires root in s
    requires forall a, b :: a in s && Step(dag, a, b) ==> b in s
    ensures forall c :: Reachable(dag, root, c) ==> c in s
  {
    forall c | Reachable(dag, root, c) ensures c in s {
      var p :| IsPath(dag, p) && p[0] == root && p[|p| - 1] == c;
      PathStaysIn(dag, p, s);
    }
  }

  function BlockBytes(dag: Dag, c: Cid): nat {
    if c in dag then LeafSize(dag[c]) else 0
  }

  /** The counter's value after visiting the blocks `s`, in that order. */
  function LeafBytes(dag: Dag, s: seq<Cid>): nat {
    if s == [] then 0 else LeafBytes(dag, s[..|s| - 1]) + BlockBytes(dag, s[|s| - 1])
  }

  /** Visiting one more block adds its own count. */
  lemma LeafBytesSnoc(dag: Dag, s: seq<Cid>, c: Cid)
    ensures LeafBytes(dag, s + [c]) == LeafBytes(dag, s) + BlockBytes(dag, c)
  {
    assert (s + [c])[..|s|] == s;
  }

  lemma {:induction false} LeafBytesAppend(dag: Dag, a: seq<Cid>, b: seq<Cid>)
    ensures LeafBytes(dag, a + b) == LeafBytes(dag, a) + LeafBytes(dag, b)
  {
    if b == [] {
      assert a + b == a;
    } else {
      assert (a + b)[..|a + b| - 1] == a + b[..|b| - 1];
      LeafBytesAppend(dag, a, b[..|b| - 1]);
    }
  }

  /** The total does not depend on the order the blocks are visited in, so
      the concurrent walk of the source ends with the same count. */
  lemma {:induction false} LeafBytesOrderIrrelevant(dag: Dag, a: seq<Cid>, b: seq<Cid>)
    requires multiset(a) == multiset(b)
    ensures LeafBytes(dag, a) == LeafBytes(dag, b)
  {
    if a != [] {
      var k := SplitAtLast(a, b);
      var x, init, rest := b[k], a[..|a| - 1], b[..k] + b[k + 1..];
      LeafBytesOrderIrrelevant(dag, init, rest);
      assert a == init + [x];
      LeafBytesSnoc(dag, init, x);
      LeafBytesSnoc(dag, b[..k], x);
      LeafBytesAppend(dag, b[..k] + [x], b[k + 1..]);
      LeafBytesAppend(dag, b[..k], b[k + 1..]);
    }
  }

  predicate Distinct(s: seq<Cid>) {
    forall i, j :: 0 <= i < j < |s| ==> s[i] != s[j]
  }

  lemma {:induction false} DistinctMultiplicity(s: seq<Cid>, x: Cid)
    requires Distinct(s)
    ensures multiset(s)[x] == if x in s then 1 else 0
  {
    if s != [] {
      var init := s[..|s| - 1];
      assert s == init + [s[|s| - 1]];
      assert Distinct(init);
      DistinctMultiplicity(init, x);
      assert s[|s| - 1] !in init;
    }
  }

  /** Two walks that fetch the same blocks once each count the same bytes. */
  lemma SameBlocksSameBytes(dag: Dag, a: seq<Cid>, b: seq<Cid>)
    requires Distinct(a) && Distinct(b)
    requires forall c :: c in a <==> c in b
    ensures LeafBytes(dag, a) == LeafBytes(dag, b)
  {
    forall x ensures multiset(a)[x] == multiset(b)[x] {
      DistinctMultiplicity(a, x);
      DistinctMultiplicity(b, x);
    }
    assert multiset(a) == multiset(b);
    LeafBytesOrderIrrelevant(dag, a, b);
  }

  /** The bookkeeping of the walk between two steps: `cset` is the set of
      blocks fetched so far, `walked` the same blocks in fetch order, each
      once; everything fetched or waiting is reachable, and every link out of
      a fetched block is fetched or waiting. */
  ghost predicate WalkState(dag: Dag, root: Cid, cset: set<Cid>, walked: seq<Cid>, work: seq<Cid>) {
    && (forall c :: c in cset <==> c in walked)
    && cset <= dag.Keys
    && Distinct(walked)
    && (forall c :: c in cset ==> Reachable(dag, root, c))
    && (forall c :: c in work ==> Reachable(dag, root, c))
    && (root in cset || root in work)
    && (forall a, b :: a in cset && Step(dag, a, b) ==> b in cset || b in work)
  }

  /** Fetching a new block and putting its followed links in front. */
  lemma FetchKeepsWalkState(dag: Dag, root: Cid, cset: set<Cid>, walked: seq<Cid>, c: Cid, rest: seq<Cid>)
    requires WalkState(dag, root, cset, walked, [c] + rest)
    requires c !in cset && c in dag
    ensures WalkState(dag, root, cset + {c}, walked + [c], Children(dag, c) + rest)
  {
    assert c in [c] + rest;
    forall b | b in Children(dag, c) ensures Reachable(dag, root, b) {
      ReachableStep(dag, root, c, b);
    }
  }

  /** Fetching a block not yet fetched leaves fewer blocks to fetch. */
  lemma UnvisitedShrinks(keys: set<Cid>, cset: set<Cid>, c: Cid)
    requires c in keys && c !in cset
    ensures |keys - (cset + {c})| < |keys - cset|
  {
    assert keys - (cset + {c}) == (keys - cset) - {c};
  }

  /** The values shown so far never decrease and none exceeds `bound`. */
  predicate MonotoneUpTo(progress: seq<nat>, bound: nat)
    decreases |progress|
  {
    progress == [] ||
    (progress[|progress| - 1] <= bound && MonotoneUpTo(progress[..|progress| - 1], progress[|progress| - 1]))
  }

  /** Showing a value no smaller than the bound keeps the display monotone. */
  lemma MonotoneGrows(progress: seq<nat>, bound: nat, next: nat)
    requires MonotoneUpTo(progress, bound) && bound <= next
    ensures MonotoneUpTo(progress + [next], next)
  {
    assert (progress + [next])[..|progress|] == progress;
  }

  lemma {:induction false} MonotoneSorted(progress: seq<nat>, bound: nat)
    requires MonotoneUpTo(progress, bound)
    ensures forall i, j :: 0 <= i < j < |progress| ==> progress[i] <= progress[j]
    ensures forall i :: 0 <= i < |progress| ==> progress[i] <= bound
    decreases |progress|
  {
    if progress != [] {
      var init := progress[..|progress| - 1];
      MonotoneSorted(init, progress[|progress| - 1]);
    }
  }

  /** The display shows the counter: monotone, ending at its value. */
  predicate ShowsCounter(progress: seq<nat>, counter: nat) {
    MonotoneUpTo(progress, counter) && (progress != [] ==> progress[|progress| - 1] == counter)
  }

  /** The getLinks closure passed to merkledag.Walk (lines 325-347): fetch
      the block; for a leaf, add its size (0 when Size fails) to the shared
      counter and show the new value; follow no links out of a raw block. */
  method GetLinks(dag: Dag, c: Cid, bytesRetrieved: nat, progress: seq<nat>)
    returns (r: Result<seq<Cid>>, bytesAfter: nat, progressAfter: seq<nat>)
    ensures r.Err? <==> c !in dag
    ensures r.Err? ==> r.error == TraversalFailed && progressAfter == progress
    ensures r.Ok? ==> r.value == Children(dag, c)
    ensures r.Ok? && c.IsRaw() ==> r.value == []
    ensures bytesAfter == bytesRetrieved + BlockBytes(dag, c)
    ensures progressAfter ==
      if c in dag && |dag[c].links| == 0 then progress + [bytesAfter] else progress
    ensures ShowsCounter(progress, bytesRetrieved) ==> ShowsCounter(progressAfter, bytesAfter)
  {
    bytesAfter, progressAfter := bytesRetrieved, progress;
    if c !in dag {
      return Err(TraversalFailed), bytesAfter, progressAfter;
    }
    var node := dag[c];
    if |node.links| == 0 {
      var nodeSize := node.size.GetOr(0);
      bytesAfter := bytesAfter + nodeSize;
      if MonotoneUpTo(progress, bytesRetrieved) {
        MonotoneGrows(progress, bytesRetrieved, bytesAfter);
      }
      progressAfter := progressAfter + [bytesAfter];
    }
    if c.IsRaw() {
      return Ok([]), bytesAfter, progressAfter;
    }
    return Ok(node.links), bytesAfter, progressAfter;
  }

  /** Everything the walk keeps true between two steps. */
  ghost predicate WalkInvariant(dag: Dag, root: Cid, cset: set<Cid>, walked: seq<Cid>, work: seq<Cid>,
                                bytesRetrieved: nat, progress: seq<nat>) {
    && WalkState(dag, root, cset, walked, work)
    && bytesRetrieved == LeafBytes(dag, walked)
    && ShowsCounter(progress, bytesRetrieved)
  }

  /** Taking an already fetched block off the work list (cset.Visit false). */
  lemma SkipStep(dag: Dag, root: Cid, cset: set<Cid>, walked: seq<Cid>, c: Cid, rest: seq<Cid>,
                 bytesRetrieved: nat, progress: seq<nat>)
    requires WalkInvariant(dag, root, cset, walked, [c] + rest, bytesRetrieved, progress)
    requires c in cset
    ensures WalkInvariant(dag, root, cset, walked, rest, bytesRetrieved, progress)
  {
  }

  /** Fetching a new block, counting it and putting its followed links in
      front; fewer blocks are left to fetch. */
  lemma FetchStep(dag: Dag, root: Cid, cset: set<Cid>, walked: seq<Cid>, c: Cid, rest: seq<Cid>,
                  bytesRetrieved: nat, progress: seq<nat>, links: seq<Cid>, bytesAfter: nat, progressAfter: seq<nat>)
    requires WalkInvariant(dag, root, cset, walked, [c] + rest, bytesRetrieved, progress)
    requires c !in cset && c in dag && links == Children(dag, c)
    requires bytesAfter == bytesRetrieved + BlockBytes(dag, c)
    requires ShowsCounter(progressAfter, bytesAfter)
    ensures WalkInvariant(dag, root, cset + {c}, walked + [c], links + rest, bytesAfter, progressAfter)
    ensures |dag.Keys - (cset + {c})| < |dag.Keys - cset|
  {
    FetchKeepsWalkState(dag, root, cset, walked, c, rest);
    UnvisitedShrinks(dag.Keys, cset, c);
    LeafBytesSnoc(dag, walked, c);
  }

  /** The walk before its first step. */
  lemma StartStep(dag: Dag, root: Cid)
    ensures WalkInvariant(dag, root, {}, [], [root], 0, [])
  {
    ReachableRoot(dag, root);
  }

  /** A block that cannot be fetched ends the walk: it is reachable but not
      in the block service. */
  lemma FailStep(dag: Dag, root: Cid, cset: set<Cid>, walked: seq<Cid>, c: Cid, rest: seq<Cid>,
                 bytesRetrieved: nat, progress: seq<nat>, walkedAfter: seq<Cid>)
    requires WalkInvariant(dag, root, cset, walked, [c] + rest, bytesRetrieved, progress)
    requires c !in cset && c !in dag && walkedAfter == walked + [c]
    ensures Distinct(walkedAfter)
    ensures forall x :: x in walkedAfter ==> Reachable(dag, root, x)
    ensures !forall x :: Reachable(dag, root, x) ==> x in dag
    ensures forall i, j :: 0 <= i < j < |progress| ==> progress[i] <= progress[j]
  {
    assert c in [c] + rest;
    MonotoneSorted(progress, bytesRetrieved);
  }

  /** An empty work list ends the walk: every reachable block was fetched. */
  lemma DoneStep(dag: Dag, root: Cid, cset: set<Cid>, walked: seq<Cid>, bytesRetrieved: nat, progress: seq<nat>)
    requires WalkInvariant(dag, root, cset, walked, [], bytesRetrieved, progress)
    ensures Distinct(walked)
    ensures forall x :: x in walked ==> Reachable(dag, root, x)
    ensures forall x :: Reachable(dag, root, x) ==> x in dag
    ensures forall x :: Reachable(dag, root, x) ==> x in walked
    ensures forall i, j :: 0 <= i < j < |progress| ==> progress[i] <= progress[j]
    ensures progress != [] ==> progress[|progress| - 1] == bytesRetrieved
  {
    ClosedContainsReachable(dag, root, cset);
    MonotoneSorted(progress, bytesRetrieved);
  }

  /** merkledag.Walk with cset.Visit, in sequential form: a work list, taken
      from the front with the followed links put in front, so blocks are met
      depth first. `walked` lists the blocks fetched, `progress` the counter
      values passed to printProgress. */
  method Walk(dag: Dag, root: Cid) returns (r: Result<nat>, walked: seq<Cid>, progress: seq<nat>)
    ensures Distinct(walked)
    ensures forall c :: c in walked ==> Reachable(dag, root, c)
    ensures r.Ok? <==> forall c :: Reachable(dag, root, c) ==> c in dag
    ensures r.Ok? ==> forall c :: Reachable(dag, root, c) ==> c in walked
    ensures r.Ok? ==> r.value == LeafBytes(dag, walked)
    ensures r.Err? ==> r.error == TraversalFailed
    ensures forall i, j :: 0 <= i < j < |progress| ==> progress[i] <= progress[j]
    ensures r.Ok? && progress != [] ==> progress[|progress| - 1] == r.value
  {
    var cset: set<Cid> := {};
    var bytesRetrieved: nat := 0;
    var work := [root];
    walked, progress := [], [];
    StartStep(dag, root);
    while work != []
      invariant WalkInvariant(dag, root, cset, walked, work, bytesRetrieved, progress)
      decreases |dag.Keys - cset|, |work|
    {
      var c := work[0];
      assert work == [c] + work[1..];
      work := work[1..];
      if c in cset {
        SkipStep(dag, root, cset, walked, c, work, bytesRetrieved, progress);
        continue;
      }
      var links, bytesAfter, progressAfter := GetLinks(dag, c, bytesRetrieved, progress);
      if links.Err? {
        FailStep(dag, root, cset, walked, c, work, bytesRetrieved, progress, walked + [c]);
        walked := walked + [c];
        r := Err(links.error);
        return;
      }
      FetchStep(dag, root, cset, walked, c, work, bytesRetrieved, progress, links.value, bytesAfter, progressAfter);
      cset, walked, work := cset + {c}, walked + [c], links.value + work;
      bytesRetrieved, progress := bytesAfter, progressAfter;
    }
    DoneStep(dag, root, cset, walked, bytesRetrieved, progress);
    r := Ok(bytesRetrieved);
  }

  /** The IPFS path after discovery. `connected` says whether some provider
      was connected before the context ended; `elapsed` is time.Since. */
  method TryRetrieveFromIpfs(connected: bool, dag: Dag, root: Cid, elapsed: nat)
    returns (r: Result<IpfsRetrievalStats>, walked: seq<Cid>)
    ensures !connected ==> r == Err(ContextDone) && walked == []
    ensures connected ==> (r.Ok? <==> forall c :: Reachable(dag, root, c) ==> c in dag)
    ensures connected && r.Err? ==> r.error == TraversalFailed
    ensures r.Ok? ==> Ipfs(r.value).ByteSize() == LeafBytes(dag, walked) && Ipfs(r.value).Duration() == elapsed
    ensures r.Ok? ==> Distinct(walked) && forall c :: c in walked <==> Reachable(dag, root, c)
  {
    if !connected {
      return Err(ContextDone), [];
    }
    var bytes, progress;
    bytes, walked, progress := Walk(dag, root);
    if bytes.Err? {
      return Err(bytes.error), walked;
    }
    r := Ok(IpfsRetrievalStats(bytes.value, elapsed));
  }
}

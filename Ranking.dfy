/** Cost model and candidate ranking (filc/retrieval.go:205-232, 360-362). */
module Ranking {
  import opened Common

  /** totalCost: MinPricePerByte * Size + UnsealPrice, exact (big.Int). */
  function TotalCost(q: QueryResponse): (c: nat)
    ensures c >= q.unsealPrice
    ensures c >= q.minPricePerByte * q.size
    ensures c - q.unsealPrice == q.minPricePerByte * q.size
  {
    q.minPricePerByte * q.size + q.unsealPrice
  }

  /** Raising the declared size never lowers the total cost. */
  lemma TotalCostMonotoneInSize(q: QueryResponse, bigger: uint64)
    requires q.size <= bigger
    ensures TotalCost(q) <= TotalCost(q.(size := bigger))
  {
    var d := bigger - q.size;
    assert q.minPricePerByte * bigger == q.minPricePerByte * q.size + q.minPricePerByte * d;
  }

  /** Raising the per-byte price never lowers the total cost. */
  lemma TotalCostMonotoneInPrice(q: QueryResponse, higher: nat)
    requires q.minPricePerByte <= higher
    ensures TotalCost(q) <= TotalCost(q.(minPricePerByte := higher))
  {
    var d := higher - q.minPricePerByte;
    assert higher * q.size == q.minPricePerByte * q.size + d * q.size;
  }

  predicate Unsealed(q: QueryResponse) { q.unsealPrice == 0 }

  /** The comparator the closure passed to sort.Slice is meant to be, on two
      responses. Rule 1 only promotes a zero unseal price; it never demotes. */
  function Less(a: QueryResponse, b: QueryResponse): (r: bool)
    ensures Unsealed(a) && !Unsealed(b) ==> r
    ensures Unsealed(a) == Unsealed(b) ==> (r <==> !KeyLe(b, a))
    ensures r ==> (Unsealed(a) && !Unsealed(b)) || !KeyLe(b, a)
  {
    if Unsealed(a) && !Unsealed(b) then true
    else if TotalCost(a) != TotalCost(b) then TotalCost(a) < TotalCost(b)
    else if a.size != b.size then a.size < b.size
    else false
  }

  lemma LessIrreflexive(a: QueryResponse)
    ensures !Less(a, a)
  {
  }

  /** A zero unseal price beats a non-zero one whatever the sizes and prices. */
  lemma LessPrefersUnsealed(a: QueryResponse, b: QueryResponse)
    requires Unsealed(a) && !Unsealed(b)
    ensures Less(a, b)
  {
  }

  /** Outside rule 1, unequal totals decide by the lower total. */
  lemma LessByTotalCost(a: QueryResponse, b: QueryResponse)
    requires !(Unsealed(a) && !Unsealed(b))
    requires TotalCost(a) != TotalCost(b)
    ensures Less(a, b) <==> TotalCost(a) < TotalCost(b)
  {
  }

  /** Outside rule 1, equal totals decide by the smaller size. */
  lemma LessBySize(a: QueryResponse, b: QueryResponse)
    requires !(Unsealed(a) && !Unsealed(b))
    requires TotalCost(a) == TotalCost(b)
    ensures Less(a, b) <==> a.size < b.size
  {
  }

  /** Less is not asymmetric: a sealed but cheaper response and an unsealed
      dearer one are each "less" than the other. */
  lemma LessNotAsymmetric()
    ensures Less(QueryResponse(10, 1, 50), QueryResponse(0, 1, 1000))
    ensures Less(QueryResponse(0, 1, 1000), QueryResponse(10, 1, 50))
  {
  }

  /** The ranking key inside one unseal class: total cost, then size. */
  predicate KeyLe(a: QueryResponse, b: QueryResponse) {
    TotalCost(a) < TotalCost(b) || (TotalCost(a) == TotalCost(b) && a.size <= b.size)
  }

  /** Between two responses of the same unseal class, Less is the strict
      lexicographic order on (total cost, size). */
  lemma LessInClass(a: QueryResponse, b: QueryResponse)
    requires Unsealed(a) == Unsealed(b)
    ensures Less(a, b) <==> !KeyLe(b, a)
  {
  }

  /** The corrected sort predicate: element i against element j. */
  predicate IntendedLess(x: CandidateQuery, y: CandidateQuery) {
    Less(x.response, y.response)
  }

  /** The predicate as written at lines 209-211: both a and b are bound to
      queries[i].Response, so only the first element is ever looked at. */
  function AsWrittenLess(x: CandidateQuery, y: CandidateQuery): (r: bool)
    ensures !r
  {
    LessIrreflexive(x.response);
    Less(x.response, x.response)
  }

  /** One step of insertion sort, as sort.Slice performs it on short slices:
      the new element moves left past every element it is less than. */
  function InsertBack(sorted: seq<CandidateQuery>, x: CandidateQuery,
                      less: (CandidateQuery, CandidateQuery) -> bool): (r: seq<CandidateQuery>)
    ensures |r| == |sorted| + 1
    ensures multiset(r) == multiset(sorted) + multiset{x}
  {
    if sorted == [] then [x]
    else
      assert sorted == sorted[..|sorted| - 1] + [sorted[|sorted| - 1]];
      if less(x, sorted[|sorted| - 1]) then
        InsertBack(sorted[..|sorted| - 1], x, less) + [sorted[|sorted| - 1]]
      else sorted + [x]
  }

  /** Insertion sort under `less`, stand-in for sort.Slice. */
  function InsertionSort(s: seq<CandidateQuery>,
                         less: (CandidateQuery, CandidateQuery) -> bool): (r: seq<CandidateQuery>)
    ensures |r| == |s|
    ensures multiset(r) == multiset(s)
  {
    if s == [] then []
    else
      assert s == s[..|s| - 1] + [s[|s| - 1]];
      InsertBack(InsertionSort(s[..|s| - 1], less), s[|s| - 1], less)
  }

  /** The order handed to the serial retrieval loop (lines 208-232). */
  function Rank(queries: seq<CandidateQuery>, noSort: bool): (r: seq<CandidateQuery>)
    ensures noSort ==> r == queries
    ensures multiset(r) == multiset(queries)
  {
    if noSort then queries else InsertionSort(queries, IntendedLess)
  }

  /** With the predicate as written, insertion sort moves nothing. */
  lemma {:induction false} AsWrittenSortKeepsOrder(s: seq<CandidateQuery>)
    ensures InsertionSort(s, AsWrittenLess) == s
  {
    if s != [] {
      AsWrittenSortKeepsOrder(s[..|s| - 1]);
      var p := s[..|s| - 1];
      assert p + [s[|s| - 1]] == s;
    }
  }

  predicate InClass(s: seq<CandidateQuery>, unsealed: bool) {
    forall x :: x in s ==> Unsealed(x.response) == unsealed
  }

  predicate KeySorted(s: seq<CandidateQuery>) {
    forall i, j :: 0 <= i < j < |s| ==> KeyLe(s[i].response, s[j].response)
  }

  lemma {:induction false} InsertBackSorted(p: seq<CandidateQuery>, x: CandidateQuery, u: bool)
    requires KeySorted(p) && InClass(p, u) && Unsealed(x.response) == u
    ensures KeySorted(InsertBack(p, x, IntendedLess))
  {
    if p != [] {
      var last := p[|p| - 1];
      var init := p[..|p| - 1];
      assert last in p;
      LessInClass(x.response, last.response);
      if IntendedLess(x, last) {
        assert KeySorted(init) && InClass(init, u) by {
          forall y | y in init ensures y in p { }
        }
        InsertBackSorted(init, x, u);
        var q := InsertBack(init, x, IntendedLess);
        forall i | 0 <= i < |q| ensures KeyLe(q[i].response, last.response) {
          assert q[i] in multiset(q);
          if q[i] != x {
            assert q[i] in multiset(init);
            var k :| 0 <= k < |init| && init[k] == q[i];
            assert p[k] == q[i];
          }
        }
      }
    }
  }

  /** Inside one unseal class the ranking is by ascending total cost, then
      ascending size. */
  lemma {:induction false} SortedWithinClass(s: seq<CandidateQuery>, u: bool)
    requires InClass(s, u)
    ensures KeySorted(InsertionSort(s, IntendedLess))
  {
    if s != [] {
      var init := s[..|s| - 1];
      assert InClass(init, u) by {
        forall y | y in init ensures y in s { }
      }
      SortedWithinClass(init, u);
      var sortedInit := InsertionSort(init, IntendedLess);
      assert InClass(sortedInit, u) by {
        forall y | y in sortedInit ensures y in init {
          assert y in multiset(sortedInit);
        }
      }
      assert s[|s| - 1] in s;
      InsertBackSorted(sortedInit, s[|s| - 1], u);
    }
  }

  /** Inside one unseal class, an already ranked sequence is left as it is. */
  lemma {:induction false} SortedInClassIsFixed(s: seq<CandidateQuery>, u: bool)
    requires InClass(s, u) && KeySorted(s)
    ensures InsertionSort(s, IntendedLess) == s
  {
    if s != [] {
      var init, last := s[..|s| - 1], s[|s| - 1];
      assert InClass(init, u) by {
        forall y | y in init ensures y in s { }
      }
      SortedInClassIsFixed(init, u);
      if init != [] {
        var prev := init[|init| - 1];
        assert prev == s[|s| - 2] && last in s && prev in s;
        LessInClass(last.response, prev.response);
      }
      assert init + [last] == s;
    }
  }

  /** Inside one unseal class, ranking a ranked sequence again changes
      nothing. */
  lemma RankIdempotentInClass(s: seq<CandidateQuery>, u: bool)
    requires InClass(s, u)
    ensures Rank(Rank(s, false), false) == Rank(s, false)
  {
    var t := Rank(s, false);
    SortedWithinClass(s, u);
    assert InClass(t, u) by {
      forall y | y in t ensures Unsealed(y.response) == u {
        assert y in multiset(t);
        assert y in multiset(s);
      }
    }
    SortedInClassIsFixed(t, u);
  }

  /** Two asks that differ only in per-byte price: the cheaper one first. */
  lemma RankCheaperFirst()
    ensures
      var a := CandidateQuery(RetrievalCandidate(1, Cid(0x71, 7), 0), QueryResponse(0, 5, 100));
      var b := CandidateQuery(RetrievalCandidate(2, Cid(0x71, 7), 0), QueryResponse(0, 2, 100));
      Rank([a, b], false) == [b, a]
  {
    var a := CandidateQuery(RetrievalCandidate(1, Cid(0x71, 7), 0), QueryResponse(0, 5, 100));
    var b := CandidateQuery(RetrievalCandidate(2, Cid(0x71, 7), 0), QueryResponse(0, 2, 100));
    assert [a, b][..1] == [a];
    assert InsertionSort([a], IntendedLess) == [a] by {
      assert [a][..0] == [];
    }
    assert IntendedLess(b, a);
  }

  /** The same two asks under the predicate as written: the dearer A stays
      in front. */
  lemma AsWrittenKeepsDearerFirst()
    ensures
      var a := CandidateQuery(RetrievalCandidate(1, Cid(0x71, 7), 0), QueryResponse(0, 5, 100));
      var b := CandidateQuery(RetrievalCandidate(2, Cid(0x71, 7), 0), QueryResponse(0, 2, 100));
      InsertionSort([a, b], AsWrittenLess) == [a, b] && TotalCost(b.response) < TotalCost(a.response)
  {
    var a := CandidateQuery(RetrievalCandidate(1, Cid(0x71, 7), 0), QueryResponse(0, 5, 100));
    var b := CandidateQuery(RetrievalCandidate(2, Cid(0x71, 7), 0), QueryResponse(0, 2, 100));
    AsWrittenSortKeepsOrder([a, b]);
  }

  /** Rule 1 does not demote: for a sealed cheap ask C and an unsealed dear
      ask D each is "less" than the other, so the ranking swaps whichever
      order it is given: [C, D] becomes [D, C] and [D, C] becomes [C, D]. */
  lemma RankDependsOnInputOrder()
    ensures
      var c := CandidateQuery(RetrievalCandidate(3, Cid(0x71, 7), 0), QueryResponse(10, 1, 50));
      var d := CandidateQuery(RetrievalCandidate(4, Cid(0x71, 7), 0), QueryResponse(0, 1, 1000));
      Rank([c, d], false) == [d, c] && Rank([d, c], false) == [c, d]
  {
    var c := CandidateQuery(RetrievalCandidate(3, Cid(0x71, 7), 0), QueryResponse(10, 1, 50));
    var d := CandidateQuery(RetrievalCandidate(4, Cid(0x71, 7), 0), QueryResponse(0, 1, 1000));
    assert [c, d][..1] == [c];
    assert [d, c][..1] == [d];
    assert InsertionSort([c], IntendedLess) == [c] by { assert [c][..0] == []; }
    assert InsertionSort([d], IntendedLess) == [d] by { assert [d][..0] == []; }
    assert IntendedLess(d, c);
    assert IntendedLess(c, d);
  }
}

/** When the exact flag can be believed although the filters may remove the record that it remembers. */
module Filters {
  import opened Wrappers
  import opened Sorting
  import opened Text
  import opened Corpus
  import opened Scan
  import opened Ranking
  import opened Exact
  import opened Recall

  // ----- two exact matches, of which the engine remembers the one that is filtered out -----

  ghost function Better(scores: map<nat, real>, e: nat): set<nat> {
    set c: nat | c in scores.Keys && e in scores && scores[c] > scores[e]
  }

  /** The accepted candidates that are ranked above an exact match in every order. */
  ghost function Ahead(l: Language, corpus: seq<Entry>, params: Params, scores: map<nat, real>, e: nat): set<nat> {
    set c: nat | c in Better(scores, e) && c < |corpus| && Accepts(params, corpus[c])
                 && Blend(Strength(l, corpus[c], params.q), scores[c]) >= Blend(1.0, scores[e])
  }

  ghost predicate AcceptedExact(l: Language, corpus: seq<Entry>, params: Params, scores: map<nat, real>, e: nat) {
    e in scores && e < |corpus| && IsExact(l, corpus[e], params.q) && Accepts(params, corpus[e])
  }

  ghost predicate RejectedBest(l: Language, corpus: seq<Entry>, params: Params, scores: map<nat, real>, d: nat) {
    BestExact(l, corpus, params.q, scores, d) && !Accepts(params, corpus[d])
  }

  /** A best exact match that the filters reject, and another one that they accept, with room for it in the answer. */
  ghost predicate Misleads(l: Language, corpus: seq<Entry>, params: Params, scores: map<nat, real>, d: nat, e: nat) {
    && RejectedBest(l, corpus, params, scores, d) && AcceptedExact(l, corpus, params, scores, e)
    && |Better(scores, e) + {d}| < RERANK_TOP_K
    && |Ahead(l, corpus, params, scores, e)| < Limit(params)
  }

  ghost predicate FlagTells(l: Language, corpus: seq<Entry>, params: Params, order: seq<Candidate>) {
    InRange(corpus, Shortlist(order))
    && (ExactFlag(l, corpus, params, order) <==> ReturnsExact(l, corpus, params, order))
  }

  // ----- an order that misleads has such a pair -----

  /** The first exact match of the shortlist is a best one of all candidates. */
  lemma RememberedIsBest(l: Language, corpus: seq<Entry>, params: Params, order: seq<Candidate>, a: nat)
    requires Enumerates(order, FullScan(l, corpus, params.q, params.fuzzy)) && InRange(corpus, Shortlist(order))
    requires a < |Shortlist(order)| && IsExact(l, corpus[Shortlist(order)[a].doc], params.q)
    requires forall k :: 0 <= k < a ==> !IsExact(l, corpus[Shortlist(order)[k].doc], params.q)
    ensures BestExact(l, corpus, params.q, FullScan(l, corpus, params.q, params.fuzzy), Shortlist(order)[a].doc)
  {
    hide FullScan, IsExact, StableSort;
    var sorted, scores := StableSort(order, BestBm25First), FullScan(l, corpus, params.q, params.fuzzy);
    SortedCandidates(l, corpus, params, order);
    ShortlistedScores(l, corpus, params, order, a);
    var d := sorted[a].doc;
    assert forall k :: 0 <= k < a ==> Shortlist(order)[k] == sorted[k];
    forall c: nat | c in scores && c < |corpus| && IsExact(l, corpus[c], params.q)
      ensures scores[c] <= scores[d]
    {
      var b := PlaceOf(sorted, scores, c);
      assert a <= b;
      NoLaterIsBetter(sorted, a, b);
    }
  }

  lemma PlaceOf(sorted: seq<Candidate>, scores: map<nat, real>, c: nat) returns (k: nat)
    requires Enumerates(sorted, scores) && c in scores
    ensures k < |sorted| && sorted[k] == Candidate(c, scores[c])
  {
    assert Candidate(c, scores[c]) in sorted;
    k :| 0 <= k < |sorted| && sorted[k] == Candidate(c, scores[c]);
  }

  lemma BetterInFront(sorted: seq<Candidate>, scores: map<nat, real>, j: nat, d: nat, a: nat)
    requires Enumerates(sorted, scores) && Sorted(sorted, BestBm25First) && a < j < |sorted| && sorted[a].doc == d
    ensures Better(scores, sorted[j].doc) + {d} <= DocSet(sorted[..j])
    ensures |Better(scores, sorted[j].doc) + {d}| <= j
  {
    EnumeratedDocs(sorted, scores);
    EnumeratedScores(sorted, scores);
    forall c | c in Better(scores, sorted[j].doc) + {d}
      ensures c in DocSet(sorted[..j])
    {
      if c == d {
        assert sorted[..j][a].doc == d;
      } else {
        var b := PlaceOf(sorted, scores, c);
        if b >= j {
          NoLaterIsBetter(sorted, j, b);
        }
        assert sorted[..j][b].doc == c;
      }
    }
    DistinctDocs(sorted[..j]);
    SubsetSize(Better(scores, sorted[j].doc) + {d}, DocSet(sorted[..j]));
  }

  lemma AheadInFront(l: Language, corpus: seq<Entry>, params: Params, order: seq<Candidate>, i: nat, j: nat)
    requires Lawful(l) && Enumerates(order, FullScan(l, corpus, params.q, params.fuzzy))
    requires InRange(corpus, Shortlist(order)) && j < |Shortlist(order)| && i < |Ranked(l, corpus, params, order)|
    requires Ranked(l, corpus, params, order)[i] == Rescore(l, corpus, params.q, Shortlist(order)[j])
    requires IsExact(l, corpus[Shortlist(order)[j].doc], params.q)
    requires Better(FullScan(l, corpus, params.q, params.fuzzy), Shortlist(order)[j].doc) <= DocSet(Shortlist(order)[..j])
    ensures |Ahead(l, corpus, params, FullScan(l, corpus, params.q, params.fuzzy), Shortlist(order)[j].doc)| <= i
  {
    hide FullScan, Shortlist, Enumerates, StableSort, Retain, Rerank, IsExact, Lawful, Blend, Strength, Accepts, Better;
    var scores := FullScan(l, corpus, params.q, params.fuzzy);
    var list, ranked := Shortlist(order), Ranked(l, corpus, params, order);
    RankedAccepted(l, corpus, params, order);
    ShortlistedScores(l, corpus, params, order, j);
    BehindScoresLess(l, corpus, params.q, list[j], list[j]);
    RescoredDoc(l, corpus, params.q, list[j]);
    assert ranked[i] in ranked;
    forall c | c in Ahead(l, corpus, params, scores, list[j].doc)
      ensures c in RankedDocs(ranked[..i])
    {
      var b :| 0 <= b < j && list[..j][b].doc == c;
      ShortlistedScores(l, corpus, params, order, b);
      RescoredDoc(l, corpus, params.q, list[b]);
      StaysAhead(l, corpus, params, list, b, j);
      var m, n :| 0 <= m < n < |ranked| && ranked[m] == Rescore(l, corpus, params.q, list[b]) && ranked[n] == ranked[i];
      assert ranked[..i][m].doc == c;
    }
    DistinctRanked(ranked[..i]);
    SubsetSize(Ahead(l, corpus, params, scores, list[j].doc), RankedDocs(ranked[..i]));
  }

  /** If the flag misses a returned exact match, the engine remembers a rejected one in front of it. */
  lemma RejectedInFront(l: Language, corpus: seq<Entry>, params: Params, order: seq<Candidate>, j: nat) returns (a: nat)
    requires Enumerates(order, FullScan(l, corpus, params.q, params.fuzzy)) && InRange(corpus, Shortlist(order))
    requires ReturnsExact(l, corpus, params, order) && !RememberedAccepted(l, corpus, params, order)
    requires j < |Shortlist(order)| && IsExact(l, corpus[Shortlist(order)[j].doc], params.q)
    requires Accepts(params, corpus[Shortlist(order)[j].doc])
    ensures a < j && RejectedBest(l, corpus, params, FullScan(l, corpus, params.q, params.fuzzy), Shortlist(order)[a].doc)
  {
    hide FullScan, Shortlist, Enumerates, IsExact, Accepts, FirstExact, ReturnsExact;
    var list := Shortlist(order);
    ExactReturnedIsRemembered(l, corpus, params, order);
    var d := FirstExact(l, corpus, params.q, list).value;
    a :| 0 <= a < |list| && list[a].doc == d && IsExact(l, corpus[d], params.q)
         && forall k :: 0 <= k < a ==> !IsExact(l, corpus[list[k].doc], params.q);
    RememberedIsBest(l, corpus, params, order, a);
  }

  lemma MisledBy(l: Language, corpus: seq<Entry>, params: Params, order: seq<Candidate>) returns (d: nat, e: nat)
    requires Lawful(l) && Enumerates(order, FullScan(l, corpus, params.q, params.fuzzy))
    requires !FlagTells(l, corpus, params, order)
    ensures Misleads(l, corpus, params, FullScan(l, corpus, params.q, params.fuzzy), d, e)
  {
    hide FullScan, StableSort, IsExact, Accepts, Rerank, Ranked, Better, Ahead, Limit, Lawful, ExactFlag, RejectedBest, RememberedAccepted, Enumerates, Returned, Rescore, Sorted;
    FlagMeaning(l, corpus, params, order);
    var list, sorted, ranked := Shortlist(order), StableSort(order, BestBm25First), Ranked(l, corpus, params, order);
    RankedAccepted(l, corpus, params, order);
    var x :| x in Take(ranked, Limit(params)) && x.doc < |corpus| && IsExact(l, corpus[x.doc], params.q);
    var i :| 0 <= i < |Take(ranked, Limit(params))| && Take(ranked, Limit(params))[i] == x;
    assert ranked[i] == x && x in ranked;
    var j := RerankFrom(l, corpus, params.q, list, x);
    var a := RejectedInFront(l, corpus, params, order, j);
    d, e := list[a].doc, x.doc;
    ShortlistedScores(l, corpus, params, order, j);
    SortedCandidates(l, corpus, params, order);
    BetterInFront(sorted, FullScan(l, corpus, params.q, params.fuzzy), j, d, a);
    assert list[..j] == sorted[..j];
    AheadInFront(l, corpus, params, order, i, j);
  }

  // ----- and such a pair makes an order that misleads -----

  /** The candidates with the rejected match first and the accepted one second. */
  lemma PairInFront(l: Language, corpus: seq<Entry>, params: Params, d: nat, e: nat)
    returns (order: seq<Candidate>, rest: seq<Candidate>)
    requires d in FullScan(l, corpus, params.q, params.fuzzy) && e in FullScan(l, corpus, params.q, params.fuzzy) && d != e
    ensures var scores := FullScan(l, corpus, params.q, params.fuzzy);
            order == [Candidate(d, scores[d]), Candidate(e, scores[e])] + rest && Enumerates(order, scores)
            && forall c :: c in rest <==> c.doc in scores.Keys - {d, e} && scores[c.doc] == c.bm25
    ensures InRange(corpus, Shortlist(order))
  {
    hide FullScan, Shortlist;
    var scores := FullScan(l, corpus, params.q, params.fuzzy);
    rest := EnumerationOf(scores.Keys - {d, e}, scores);
    var front := [Candidate(d, scores[d]), Candidate(e, scores[e])];
    order := front + rest;
    JoinedEnumeration({d, e}, front, rest, scores);
    ShortlistFacts(l, corpus, params, order);
  }

  ghost predicate PairFirst(order: seq<Candidate>, scores: map<nat, real>, d: nat, e: nat) {
    && d in scores && e in scores && d != e && Enumerates(order, scores) && |order| >= 2
    && order[0] == Candidate(d, scores[d]) && order[1] == Candidate(e, scores[e])
  }

  /** The first of the order stays in front of all that score no more. */
  lemma FirstStaysFirst(order: seq<Candidate>, scores: map<nat, real>, n: nat, c: nat)
    requires Enumerates(order, scores) && n < |order| && c in scores && scores[order[n].doc] >= scores[c]
    requires order[n].doc in scores && forall m :: 0 <= m <= n ==> order[m].doc != c
    ensures Before(StableSort(order, BestBm25First), order[n], Candidate(c, scores[c]))
  {
    hide StableSort;
    EnumeratedScores(order, scores);
    var k := PlaceOf(order, scores, c);
    assert n < k;
    SortIsStable(order, BestBm25First, order[n], order[k]);
  }

  /** In front of one of the first of the order, only these and strictly better ones are placed. */
  lemma BetterBefore(order: seq<Candidate>, sorted: seq<Candidate>, scores: map<nat, real>, n: nat, k: nat, m: nat)
    requires sorted == StableSort(order, BestBm25First)
    requires Enumerates(order, scores) && Enumerates(sorted, scores)
    requires n < |order| && m < k < |sorted| && sorted[k] == order[n]
    requires forall p :: 0 <= p <= n ==> order[p].doc != sorted[m].doc
    ensures sorted[m].doc in scores && order[n].doc in scores && scores[sorted[m].doc] > scores[order[n].doc]
  {
    hide StableSort, Enumerates;
    EnumeratedScores(order, scores);
    EnumeratedScores(sorted, scores);
    var c := sorted[m].doc;
    if scores[c] <= scores[order[n].doc] {
      FirstStaysFirst(order, scores, n, c);
      EnumeratedOnce(sorted, scores);
      LaterIsNotBefore(sorted, m, k);
    }
  }

  lemma EnumeratedOnce(list: seq<Candidate>, scores: map<nat, real>)
    requires Enumerates(list, scores)
    ensures NoDuplicates(list)
  {
  }

  lemma SortedEnumerates(order: seq<Candidate>, scores: map<nat, real>)
    requires Enumerates(order, scores)
    ensures Enumerates(StableSort(order, BestBm25First), scores) && Sorted(StableSort(order, BestBm25First), BestBm25First)
  {
    hide StableSort;
    SortElements(order, BestBm25First);
    SameElements(StableSort(order, BestBm25First), order);
    SortSorts(order, BestBm25First);
    SortKeepsDistinct(order, BestBm25First);
  }

  lemma PlacesInFront(order: seq<Candidate>, scores: map<nat, real>, d: nat, e: nat) returns (k: nat, j: nat)
    requires PairFirst(order, scores, d, e) && scores[d] >= scores[e]
    ensures var sorted := StableSort(order, BestBm25First);
            k < j < |sorted| && sorted[k] == order[0] && sorted[j] == order[1]
            && DocSet(sorted[..j]) <= Better(scores, e) + {d} && j <= |Better(scores, e) + {d}|
            && forall m :: 0 <= m < k ==> sorted[m].doc in scores && scores[sorted[m].doc] > scores[d]
  {
    hide StableSort, Enumerates, DocSet, Better;
    var sorted := StableSort(order, BestBm25First);
    SortedEnumerates(order, scores);
    FirstStaysFirst(order, scores, 0, e);
    k, j :| 0 <= k < j < |sorted| && sorted[k] == order[0] && sorted[j] == order[1];
    FrontOfFirst(order, sorted, scores, d, e, k);
    FrontOfSecond(order, sorted, scores, d, e, j);
  }

  lemma FrontOfFirst(order: seq<Candidate>, sorted: seq<Candidate>, scores: map<nat, real>, d: nat, e: nat, k: nat)
    requires PairFirst(order, scores, d, e) && sorted == StableSort(order, BestBm25First) && Enumerates(sorted, scores)
    requires k < |sorted| && sorted[k] == order[0]
    ensures forall m :: 0 <= m < k ==> sorted[m].doc in scores && scores[sorted[m].doc] > scores[d]
  {
    hide StableSort, Enumerates;
    EnumeratedDocs(sorted, scores);
    forall m | 0 <= m < k
      ensures sorted[m].doc in scores && scores[sorted[m].doc] > scores[d]
    {
      BetterBefore(order, sorted, scores, 0, k, m);
    }
  }

  lemma FrontOfSecond(order: seq<Candidate>, sorted: seq<Candidate>, scores: map<nat, real>, d: nat, e: nat, j: nat)
    requires PairFirst(order, scores, d, e) && sorted == StableSort(order, BestBm25First) && Enumerates(sorted, scores)
    requires j < |sorted| && sorted[j] == order[1]
    ensures DocSet(sorted[..j]) <= Better(scores, e) + {d} && j <= |Better(scores, e) + {d}|
  {
    hide StableSort, Enumerates;
    EnumeratedDocs(sorted, scores);
    forall c | c in DocSet(sorted[..j])
      ensures c in Better(scores, e) + {d}
    {
      var m :| 0 <= m < j && sorted[..j][m].doc == c;
      if c != d {
        assert sorted[m].doc != sorted[j].doc;
        BetterBefore(order, sorted, scores, 1, j, m);
      }
    }
    hide Better;
    DistinctDocs(sorted[..j]);
    SubsetSize(DocSet(sorted[..j]), Better(scores, e) + {d});
  }

  /** What is ranked above the accepted match is ahead of it in every order. */
  lemma AboveIsAhead(l: Language, corpus: seq<Entry>, params: Params, order: seq<Candidate>, d: nat, j: nat, i: nat, m: nat)
    requires Lawful(l) && Enumerates(order, FullScan(l, corpus, params.q, params.fuzzy))
    requires InRange(corpus, Shortlist(order)) && j < |Shortlist(order)| && m < i < |Ranked(l, corpus, params, order)|
    requires Ranked(l, corpus, params, order)[i] == Rescore(l, corpus, params.q, Shortlist(order)[j])
    requires IsExact(l, corpus[Shortlist(order)[j].doc], params.q)
    requires DocSet(Shortlist(order)[..j])
             <= Better(FullScan(l, corpus, params.q, params.fuzzy), Shortlist(order)[j].doc) + {d}
    requires d < |corpus| && !Accepts(params, corpus[d])
    ensures Ranked(l, corpus, params, order)[m].doc
            in Ahead(l, corpus, params, FullScan(l, corpus, params.q, params.fuzzy), Shortlist(order)[j].doc)
  {
    hide FullScan, Shortlist, Enumerates, StableSort, Retain, Rerank, IsExact, Lawful, Blend, Strength, Accepts, Better;
    var list, ranked := Shortlist(order), Ranked(l, corpus, params, order);
    RankedAccepted(l, corpus, params, order);
    ShortlistFacts(l, corpus, params, order);
    ShortlistedScores(l, corpus, params, order, j);
    var y := ranked[m];
    assert y in ranked && ranked[i] in ranked && BestScoreFirst(y, ranked[i]);
    var b := RerankFrom(l, corpus, params.q, list, y);
    ShortlistedScores(l, corpus, params, order, b);
    RescoredDoc(l, corpus, params.q, list[j]);
    assert y.doc != ranked[i].doc;
    if b < j {
      assert list[..j][b].doc == y.doc && y.doc != d;
      assert y.doc in DocSet(list[..j]);
      BehindScoresLess(l, corpus, params.q, list[j], list[j]);
      assert y.score == Blend(Strength(l, corpus[y.doc], params.q), list[b].bm25);
      assert y.doc in Better(FullScan(l, corpus, params.q, params.fuzzy), list[j].doc);
    } else {
      assert BestBm25First(list[j], list[b]);
      BehindScoresLess(l, corpus, params.q, list[j], list[b]);
      StaysAhead(l, corpus, params, list, j, b);
      LaterIsNotBefore(ranked, m, i);
    }
  }

  lemma PairMisleads(l: Language, corpus: seq<Entry>, params: Params, d: nat, e: nat) returns (order: seq<Candidate>)
    requires Lawful(l) && Misleads(l, corpus, params, FullScan(l, corpus, params.q, params.fuzzy), d, e)
    ensures Enumerates(order, FullScan(l, corpus, params.q, params.fuzzy)) && !FlagTells(l, corpus, params, order)
  {
    hide FullScan, StableSort, IsExact, Accepts, Better, Ahead, Limit, Lawful, FirstExact, Ranked, Returned, Rerank, Rescore;
    var scores := FullScan(l, corpus, params.q, params.fuzzy);
    var rest;
    order, rest := PairInFront(l, corpus, params, d, e);
    var k, j := PlacesInFront(order, scores, d, e);
    var sorted, list := StableSort(order, BestBm25First), Shortlist(order);
    assert k < j < |list| && list[k] == sorted[k] && list[j] == sorted[j] && list[..j] == sorted[..j];
    forall m | 0 <= m < k
      ensures !IsExact(l, corpus[list[m].doc], params.q)
    {
      assert list[m] == sorted[m];
    }
    FirstExactIs(l, corpus, params.q, list, k);
    FlagMeaning(l, corpus, params, order);
    PlacedIsReturned(l, corpus, params, order, d, j);
  }

  lemma PlacedIsReturned(l: Language, corpus: seq<Entry>, params: Params, order: seq<Candidate>, d: nat, j: nat)
    requires Lawful(l) && Enumerates(order, FullScan(l, corpus, params.q, params.fuzzy))
    requires InRange(corpus, Shortlist(order)) && j < |Shortlist(order)|
    requires var scores, e := FullScan(l, corpus, params.q, params.fuzzy), Shortlist(order)[j].doc;
             Misleads(l, corpus, params, scores, d, e) && DocSet(Shortlist(order)[..j]) <= Better(scores, e) + {d}
    ensures ReturnsExact(l, corpus, params, order)
  {
    hide FullScan, Shortlist, Enumerates, StableSort, IsExact, Accepts, Better, Ahead, Limit, Lawful, Ranked, Rerank, Rescore;
    var scores, list, ranked := FullScan(l, corpus, params.q, params.fuzzy), Shortlist(order), Ranked(l, corpus, params, order);
    var ahead := Ahead(l, corpus, params, scores, list[j].doc);
    RankedAccepted(l, corpus, params, order);
    RerankAt(l, corpus, params.q, list, j);
    RescoredDoc(l, corpus, params.q, list[j]);
    var x := Rescore(l, corpus, params.q, list[j]);
    assert x in Rerank(l, corpus, params.q, list);
    var i :| 0 <= i < |ranked| && ranked[i] == x;
    forall c | c in RankedDocs(ranked[..i])
      ensures c in ahead
    {
      var m :| 0 <= m < i && ranked[..i][m].doc == c;
      AboveIsAhead(l, corpus, params, order, d, j, i, m);
    }
    DistinctRanked(ranked[..i]);
    SubsetSize(RankedDocs(ranked[..i]), ahead);
    assert Take(ranked, Limit(params))[i] == x;
  }

  // ----- the main results -----

  /**
    When the flag can be believed although there are filters: it says in every order of the hash map whether an exact
    match is returned, if and only if no exact match with the best BM25 score is rejected while another is accepted
    that the cut at 200 and the limit leave room for.
   */
  lemma FlagWithFilters(l: Language, corpus: seq<Entry>, params: Params)
    requires Lawful(l)
    ensures (forall order :: Enumerates(order, FullScan(l, corpus, params.q, params.fuzzy)) ==>
               FlagTells(l, corpus, params, order))
            <==> !exists d, e :: Misleads(l, corpus, params, FullScan(l, corpus, params.q, params.fuzzy), d, e)
  {
    hide FullScan, FlagTells, Misleads, Enumerates, Lawful;
    var scores := FullScan(l, corpus, params.q, params.fuzzy);
    if d, e :| Misleads(l, corpus, params, scores, d, e) {
      var order := PairMisleads(l, corpus, params, d, e);
    } else {
      forall order | Enumerates(order, scores)
        ensures FlagTells(l, corpus, params, order)
      {
        if !FlagTells(l, corpus, params, order) {
          var d, e := MisledBy(l, corpus, params, order);
        }
      }
    }
  }

  /**
    With at most 200 candidates and a limit that covers them: if and only if every exact match with the best BM25
    score passes the filters, or no exact match does.
   */
  lemma FlagWithRoom(l: Language, corpus: seq<Entry>, params: Params)
    requires Lawful(l)
    requires |FullScan(l, corpus, params.q, params.fuzzy)| <= RERANK_TOP_K
    requires |FullScan(l, corpus, params.q, params.fuzzy)| <= Limit(params)
    ensures (forall order :: Enumerates(order, FullScan(l, corpus, params.q, params.fuzzy)) ==>
               FlagTells(l, corpus, params, order))
            <==> (forall d :: !RejectedBest(l, corpus, params, FullScan(l, corpus, params.q, params.fuzzy), d))
                 || (forall e :: !AcceptedExact(l, corpus, params, FullScan(l, corpus, params.q, params.fuzzy), e))
  {
    FlagWithFilters(l, corpus, params);
    hide FullScan, FlagTells, Enumerates, Limit, Lawful, RejectedBest, AcceptedExact, Misleads;
    var scores := FullScan(l, corpus, params.q, params.fuzzy);
    if d, e :| Misleads(l, corpus, params, scores, d, e) {
      RoomForPair(l, corpus, params, scores, d, e);
    } else if d :| RejectedBest(l, corpus, params, scores, d) {
      forall e
        ensures !AcceptedExact(l, corpus, params, scores, e)
      {
        RoomForPair(l, corpus, params, scores, d, e);
      }
    }
  }

  lemma RoomForPair(l: Language, corpus: seq<Entry>, params: Params, scores: map<nat, real>, d: nat, e: nat)
    requires |scores| <= RERANK_TOP_K && |scores| <= Limit(params)
    ensures Misleads(l, corpus, params, scores, d, e)
            <==> RejectedBest(l, corpus, params, scores, d) && AcceptedExact(l, corpus, params, scores, e)
  {
    hide IsExact, Accepts, Blend, Strength;
    if RejectedBest(l, corpus, params, scores, d) && AcceptedExact(l, corpus, params, scores, e) {
      assert Better(scores, e) + {d} <= scores.Keys - {e};
      SubsetSize(Better(scores, e) + {d}, scores.Keys - {e});
      SubsetSize(Ahead(l, corpus, params, scores, e), Better(scores, e) + {d});
    }
  }
}

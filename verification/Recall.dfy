/** Which exact matches of the corpus reach the answer: the cut at 200, the limit, and small candidate sets. */
module Recall {
  import opened Wrappers
  import opened Sorting
  import opened Text
  import opened Corpus
  import opened Scan
  import opened Ranking
  import opened Exact

  // ----- counting candidates -----

  function DocSet(list: seq<Candidate>): set<nat> {
    set i | 0 <= i < |list| :: list[i].doc
  }

  lemma {:induction false} DistinctDocs(list: seq<Candidate>)
    requires forall i, j :: 0 <= i < j < |list| ==> list[i].doc != list[j].doc
    ensures |DocSet(list)| == |list|
  {
    if list != [] {
      var n := |list| - 1;
      DistinctDocs(list[..n]);
      assert DocSet(list) == DocSet(list[..n]) + {list[n].doc};
      assert list[n].doc !in DocSet(list[..n]);
    }
  }

  lemma SubsetSize(a: set<nat>, b: set<nat>)
    requires a <= b
    ensures |a| <= |b|
  {
    assert b == a + (b - a);
  }

  lemma EnumeratedDocs(order: seq<Candidate>, scores: map<nat, real>)
    requires Enumerates(order, scores)
    ensures forall i, j :: 0 <= i < j < |order| ==> order[i].doc != order[j].doc
    ensures DocSet(order) == scores.Keys && |order| == |scores|
  {
    forall i, j | 0 <= i < j < |order|
      ensures order[i].doc != order[j].doc
    {
      assert order[i] in order && order[j] in order && order[i] != order[j];
    }
    forall d | d in scores
      ensures d in DocSet(order)
    {
      assert Candidate(d, scores[d]) in order;
    }
    forall d | d in DocSet(order)
      ensures d in scores
    {
      var i :| 0 <= i < |order| && order[i].doc == d;
      assert order[i] in order;
    }
    DistinctDocs(order);
  }

  /** Every finite score table can be drained in some order. */
  lemma {:induction false} EnumerationOf(docs: set<nat>, scores: map<nat, real>) returns (list: seq<Candidate>)
    requires docs <= scores.Keys
    ensures NoDuplicates(list)
    ensures forall c :: c in list <==> c.doc in docs && c.doc in scores && scores[c.doc] == c.bm25
    decreases |docs|
  {
    if docs == {} {
      list := [];
    } else {
      var d :| d in docs;
      var rest := EnumerationOf(docs - {d}, scores);
      list := rest + [Candidate(d, scores[d])];
    }
  }

  // ----- exact matches and their rivals -----

  /** An exact match with the highest BM25 score of all exact matches. */
  ghost predicate BestExact(l: Language, corpus: seq<Entry>, q: string, scores: map<nat, real>, d: nat) {
    && d in scores && d < |corpus| && IsExact(l, corpus[d], q)
    && forall c: nat :: c in scores && c < |corpus| && IsExact(l, corpus[c], q) ==> scores[c] <= scores[d]
  }

  /** The candidates that are no exact match but score at least as much. */
  ghost function Rivals(l: Language, corpus: seq<Entry>, q: string, scores: map<nat, real>, d: nat): set<nat> {
    set c: nat | c in scores.Keys && d in scores && c < |corpus| && !IsExact(l, corpus[c], q) && scores[c] >= scores[d]
  }

  lemma ScanKeys(l: Language, corpus: seq<Entry>, params: Params)
    ensures forall d: nat :: d in FullScan(l, corpus, params.q, params.fuzzy) ==> d < |corpus|
  {
  }

  lemma SortedCandidates(l: Language, corpus: seq<Entry>, params: Params, order: seq<Candidate>)
    requires Enumerates(order, FullScan(l, corpus, params.q, params.fuzzy))
    ensures var sorted := StableSort(order, BestBm25First);
            Sorted(sorted, BestBm25First) && NoDuplicates(sorted) && |sorted| == |order|
            && Enumerates(sorted, FullScan(l, corpus, params.q, params.fuzzy))
  {
    hide FullScan;
    SortElements(order, BestBm25First);
    SameElements(StableSort(order, BestBm25First), order);
    SortSorts(order, BestBm25First);
    SortKeepsDistinct(order, BestBm25First);
  }

  lemma FirstExactAt(l: Language, corpus: seq<Entry>, q: string, sorted: seq<Candidate>, j: nat) returns (k: nat)
    requires InRange(corpus, sorted) && j < |sorted| && IsExact(l, corpus[sorted[j].doc], q)
    ensures k <= j && IsExact(l, corpus[sorted[k].doc], q)
    ensures forall m :: 0 <= m < k ==> !IsExact(l, corpus[sorted[m].doc], q)
  {
    hide IsExact;
    k := 0;
    while !IsExact(l, corpus[sorted[k].doc], q)
      invariant k <= j && forall m :: 0 <= m < k ==> !IsExact(l, corpus[sorted[m].doc], q)
      decreases j - k
    {
      k := k + 1;
    }
  }

  /** With fewer than 200 rivals, some best exact match is on the shortlist, and first of all exact ones. */
  lemma FewRivals(l: Language, corpus: seq<Entry>, params: Params, order: seq<Candidate>, d: nat) returns (k: nat)
    requires Enumerates(order, FullScan(l, corpus, params.q, params.fuzzy))
    requires BestExact(l, corpus, params.q, FullScan(l, corpus, params.q, params.fuzzy), d)
    requires |Rivals(l, corpus, params.q, FullScan(l, corpus, params.q, params.fuzzy), d)| < RERANK_TOP_K
    ensures InRange(corpus, Shortlist(order))
    ensures k < |Shortlist(order)| && IsExact(l, corpus[Shortlist(order)[k].doc], params.q)
    ensures Shortlist(order)[k].bm25 == FullScan(l, corpus, params.q, params.fuzzy)[d]
    ensures forall m :: 0 <= m < k ==> !IsExact(l, corpus[Shortlist(order)[m].doc], params.q)
  {
    hide FullScan, IsExact, StableSort;
    var scores := FullScan(l, corpus, params.q, params.fuzzy);
    ShortlistFacts(l, corpus, params, order);
    ScanKeys(l, corpus, params);
    SortedCandidates(l, corpus, params, order);
    var sorted := StableSort(order, BestBm25First);
    k := AheadAreRivals(l, corpus, params.q, scores, sorted, d);
  }

  lemma AheadAreRivals(l: Language, corpus: seq<Entry>, q: string, scores: map<nat, real>, sorted: seq<Candidate>, d: nat)
    returns (k: nat)
    requires Enumerates(sorted, scores) && Sorted(sorted, BestBm25First)
    requires forall c: nat :: c in scores ==> c < |corpus|
    requires BestExact(l, corpus, q, scores, d)
    ensures k < |sorted| && sorted[k].doc < |corpus| && IsExact(l, corpus[sorted[k].doc], q)
    ensures k <= |Rivals(l, corpus, q, scores, d)| && sorted[k].bm25 == scores[d]
    ensures forall m :: 0 <= m < k ==> sorted[m].doc < |corpus| && !IsExact(l, corpus[sorted[m].doc], q)
  {
    hide IsExact, Rivals, Sorted, DocSet;
    EnumeratedDocs(sorted, scores);
    assert Candidate(d, scores[d]) in sorted;
    var j :| 0 <= j < |sorted| && sorted[j] == Candidate(d, scores[d]);
    EnumeratedScores(sorted, scores);
    hide Enumerates;
    k := FirstExactAt(l, corpus, q, sorted, j);
    NoLaterIsBetter(sorted, k, j);
    FrontAreRivals(l, corpus, q, scores, sorted, d, k, j);
    DistinctDocs(sorted[..k]);
    SubsetSize(DocSet(sorted[..k]), Rivals(l, corpus, q, scores, d));
  }

  lemma FrontAreRivals(l: Language, corpus: seq<Entry>, q: string, scores: map<nat, real>, sorted: seq<Candidate>, d: nat,
                       k: nat, j: nat)
    requires Sorted(sorted, BestBm25First) && k <= j < |sorted| && d in scores && sorted[j] == Candidate(d, scores[d])
    requires forall i :: 0 <= i < |sorted| ==> sorted[i].doc in scores && scores[sorted[i].doc] == sorted[i].bm25
    requires forall m :: 0 <= m < k ==> sorted[m].doc < |corpus| && !IsExact(l, corpus[sorted[m].doc], q)
    ensures DocSet(sorted[..k]) <= Rivals(l, corpus, q, scores, d)
  {
    hide IsExact, Rivals, Sorted;
    forall c | c in DocSet(sorted[..k])
      ensures c in Rivals(l, corpus, q, scores, d)
    {
      var m :| 0 <= m < k && sorted[..k][m].doc == c;
      FrontIsRival(l, corpus, q, scores, sorted, d, m, j);
    }
  }

  lemma NoLaterIsBetter(sorted: seq<Candidate>, i: nat, j: nat)
    requires Sorted(sorted, BestBm25First) && i <= j < |sorted|
    ensures sorted[i].bm25 >= sorted[j].bm25
  {
    assert i < j ==> BestBm25First(sorted[i], sorted[j]);
  }

  lemma EnumeratedScores(order: seq<Candidate>, scores: map<nat, real>)
    requires Enumerates(order, scores)
    ensures forall i :: 0 <= i < |order| ==> order[i].doc in scores && scores[order[i].doc] == order[i].bm25
  {
    forall i | 0 <= i < |order|
      ensures order[i].doc in scores && scores[order[i].doc] == order[i].bm25
    {
      assert order[i] in order;
    }
  }

  lemma FrontIsRival(l: Language, corpus: seq<Entry>, q: string, scores: map<nat, real>, sorted: seq<Candidate>, d: nat,
                     m: nat, j: nat)
    requires Sorted(sorted, BestBm25First) && m < j < |sorted| && d in scores && sorted[j] == Candidate(d, scores[d])
    requires sorted[m].doc in scores && scores[sorted[m].doc] == sorted[m].bm25
    requires sorted[m].doc < |corpus| && !IsExact(l, corpus[sorted[m].doc], q)
    ensures sorted[m].doc in Rivals(l, corpus, q, scores, d)
  {
    hide IsExact;
    assert BestBm25First(sorted[m], sorted[j]);
  }

  /** Every exact match comes behind all rivals. */
  ghost predicate RivalsFirst(l: Language, corpus: seq<Entry>, q: string, scores: map<nat, real>, d: nat,
                              sorted: seq<Candidate>) {
    forall k :: 0 <= k < |sorted| && sorted[k].doc < |corpus| && IsExact(l, corpus[sorted[k].doc], q) ==>
      Rivals(l, corpus, q, scores, d) <= DocSet(sorted[..k])
  }

  /** Some order of the candidates puts all rivals in front. */
  lemma RivalsInFront(l: Language, corpus: seq<Entry>, params: Params, d: nat) returns (order: seq<Candidate>)
    requires BestExact(l, corpus, params.q, FullScan(l, corpus, params.q, params.fuzzy), d)
    ensures Enumerates(order, FullScan(l, corpus, params.q, params.fuzzy)) && InRange(corpus, Shortlist(order))
    ensures RivalsFirst(l, corpus, params.q, FullScan(l, corpus, params.q, params.fuzzy), d,
                        StableSort(order, BestBm25First))
  {
    hide FullScan, IsExact, StableSort;
    var scores := FullScan(l, corpus, params.q, params.fuzzy);
    ScanKeys(l, corpus, params);
    var rivals := Rivals(l, corpus, params.q, scores, d);
    var front := EnumerationOf(rivals, scores);
    var back := EnumerationOf(scores.Keys - rivals, scores);
    order := front + back;
    JoinedEnumeration(rivals, front, back, scores);
    ShortlistFacts(l, corpus, params, order);
    SortedCandidates(l, corpus, params, order);
    var sorted := StableSort(order, BestBm25First);
    forall k | 0 <= k < |sorted| && sorted[k].doc < |corpus| && IsExact(l, corpus[sorted[k].doc], params.q)
      ensures rivals <= DocSet(sorted[..k])
    {
      RivalsAhead(l, corpus, params, d, front, back, sorted, k);
    }
  }

  /** With 200 rivals in front, every exact match is off the shortlist. */
  lemma ManyRivals(l: Language, corpus: seq<Entry>, params: Params, d: nat, order: seq<Candidate>)
    requires Enumerates(order, FullScan(l, corpus, params.q, params.fuzzy)) && InRange(corpus, Shortlist(order))
    requires RivalsFirst(l, corpus, params.q, FullScan(l, corpus, params.q, params.fuzzy), d,
                         StableSort(order, BestBm25First))
    requires |Rivals(l, corpus, params.q, FullScan(l, corpus, params.q, params.fuzzy), d)| >= RERANK_TOP_K
    ensures forall k :: 0 <= k < |Shortlist(order)| ==> !IsExact(l, corpus[Shortlist(order)[k].doc], params.q)
  {
    hide FullScan, IsExact, StableSort, Rivals;
    var scores := FullScan(l, corpus, params.q, params.fuzzy);
    SortedCandidates(l, corpus, params, order);
    var sorted := StableSort(order, BestBm25First);
    EnumeratedDocs(sorted, scores);
    hide Enumerates, DocSet;
    forall k | 0 <= k < |Shortlist(order)|
      ensures !IsExact(l, corpus[Shortlist(order)[k].doc], params.q)
    {
      assert Shortlist(order)[k] == sorted[k];
      DistinctDocs(sorted[..k]);
      if IsExact(l, corpus[sorted[k].doc], params.q) {
        SubsetSize(Rivals(l, corpus, params.q, scores, d), DocSet(sorted[..k]));
      }
    }
  }

  lemma JoinedEnumeration(docs: set<nat>, front: seq<Candidate>, back: seq<Candidate>, scores: map<nat, real>)
    requires docs <= scores.Keys && NoDuplicates(front) && NoDuplicates(back)
    requires forall c :: c in front <==> c.doc in docs && c.doc in scores && scores[c.doc] == c.bm25
    requires forall c :: c in back <==> c.doc in scores.Keys - docs && c.doc in scores && scores[c.doc] == c.bm25
    ensures Enumerates(front + back, scores)
  {
    forall i, j | 0 <= i < |front| && 0 <= j < |back|
      ensures front[i] != back[j]
    {
      assert front[i] in front && back[j] in back;
    }
  }

  lemma RivalsAhead(l: Language, corpus: seq<Entry>, params: Params, d: nat, front: seq<Candidate>,
                    back: seq<Candidate>, sorted: seq<Candidate>, k: nat)
    requires BestExact(l, corpus, params.q, FullScan(l, corpus, params.q, params.fuzzy), d)
    requires var scores := FullScan(l, corpus, params.q, params.fuzzy);
             var rivals := Rivals(l, corpus, params.q, scores, d);
             (forall c :: c in front <==> c.doc in rivals && scores[c.doc] == c.bm25)
             && Enumerates(front + back, scores) && Enumerates(sorted, scores)
    requires sorted == StableSort(front + back, BestBm25First)
    requires k < |sorted| && sorted[k].doc < |corpus| && IsExact(l, corpus[sorted[k].doc], params.q)
    ensures Rivals(l, corpus, params.q, FullScan(l, corpus, params.q, params.fuzzy), d) <= DocSet(sorted[..k])
  {
    hide FullScan, IsExact, StableSort;
    var scores := FullScan(l, corpus, params.q, params.fuzzy);
    var rivals := Rivals(l, corpus, params.q, scores, d);
    var x := sorted[k];
    assert x in sorted;
    assert x in back by {
      assert x in front + back;
    }
    forall r | r in rivals
      ensures r in DocSet(sorted[..k])
    {
      var c := Candidate(r, scores[r]);
      assert c in front;
      InFrontOf(front, back, c, x);
      SortIsStable(front + back, BestBm25First, c, x);
      var i, j :| 0 <= i < j < |sorted| && sorted[i] == c && sorted[j] == x;
      assert j == k;
      assert sorted[..k][i].doc == r;
    }
  }

  lemma InFrontOf(front: seq<Candidate>, back: seq<Candidate>, a: Candidate, b: Candidate)
    requires a in front && b in back
    ensures Before(front + back, a, b)
  {
    var i :| 0 <= i < |front| && front[i] == a;
    var j :| 0 <= j < |back| && back[j] == b;
    assert (front + back)[i] == a && (front + back)[|front| + j] == b;
  }

  // ----- from the shortlist to the flag -----

  /** Without filters and with room for the shortlist, an exact match on the shortlist sets the flag. */
  lemma ShortlistedIsFlagged(l: Language, corpus: seq<Entry>, params: Params, order: seq<Candidate>, k: nat)
    requires Enumerates(order, FullScan(l, corpus, params.q, params.fuzzy)) && Unfiltered(params)
    requires InRange(corpus, Shortlist(order)) && Limit(params) >= |Shortlist(order)|
    requires k < |Shortlist(order)| && IsExact(l, corpus[Shortlist(order)[k].doc], params.q)
    ensures ExactFlag(l, corpus, params, order)
  {
    hide FullScan, IsExact, StableSort, Shortlist, Rerank, Returned, ExactFlag, Enumerates, Limit, Filtered;
    FilteredHits(l, corpus, params, order);
    TopOfFiltered(l, corpus, params, order);
    FlagUnfiltered(l, corpus, params, order);
    var list := Shortlist(order);
    var scored := Rerank(l, corpus, params.q, list);
    RerankInRange(l, corpus, params.q, list);
    var s := scored[k];
    assert s in scored && s in Filtered(l, corpus, params, order);
    FilteredSize(l, corpus, params, order);
    EverythingReturned(Returned(l, corpus, params, order), Filtered(l, corpus, params, order), Limit(params), s);
    assert s in Returned(l, corpus, params, order);
  }

  lemma {:induction false} RetainSize(corpus: seq<Entry>, params: Params, list: seq<Scored>)
    requires forall i :: 0 <= i < |list| ==> list[i].doc < |corpus|
    ensures |Retain(corpus, params, list)| <= |list|
  {
    if list != [] {
      hide Accepts;
      RetainSize(corpus, params, list[..|list| - 1]);
    }
  }

  lemma FilteredSize(l: Language, corpus: seq<Entry>, params: Params, order: seq<Candidate>)
    requires InRange(corpus, Shortlist(order))
    ensures |Filtered(l, corpus, params, order)| <= |Shortlist(order)|
  {
    hide Shortlist;
    RetainSize(corpus, params, Rerank(l, corpus, params.q, Shortlist(order)));
  }

  lemma EverythingReturned(best: seq<Scored>, all: seq<Scored>, limit: nat, s: Scored)
    requires BestOf(best, all, limit) && |all| <= limit && s in all && NoDuplicates(all)
    ensures s in best
  {
    if s !in best {
      var b, a := set x | x in best, set x | x in all;
      DistinctScored(best);
      DistinctScored(all);
      assert b <= a - {s};
      assert a == (a - {s}) + {s};
      ScoredSubset(b, a - {s});
    }
  }

  lemma ScoredSubset(a: set<Scored>, b: set<Scored>)
    requires a <= b
    ensures |a| <= |b|
  {
    assert b == a + (b - a);
  }

  lemma {:induction false} DistinctScored(list: seq<Scored>)
    requires NoDuplicates(list)
    ensures |set x | x in list| == |list|
  {
    if list != [] {
      var n := |list| - 1;
      DistinctScored(list[..n]);
      assert list == list[..n] + [list[n]];
      assert (set x | x in list) == (set x | x in list[..n]) + {list[n]};
      assert list[n] !in list[..n];
    }
  }

  lemma UnlistedIsUnflagged(l: Language, corpus: seq<Entry>, params: Params, order: seq<Candidate>)
    requires InRange(corpus, Shortlist(order))
    requires forall k :: 0 <= k < |Shortlist(order)| ==> !IsExact(l, corpus[Shortlist(order)[k].doc], params.q)
    ensures !ExactFlag(l, corpus, params, order)
  {
    hide IsExact, Shortlist, Returned;
  }

  // ----- who is ranked above an exact match -----

  /** The rivals whose blended score, too, is at least that of the exact match. */
  ghost function Outranking(l: Language, corpus: seq<Entry>, q: string, scores: map<nat, real>, d: nat): set<nat> {
    set c: nat | c in Rivals(l, corpus, q, scores, d)
                 && Blend(Strength(l, corpus[c], q), scores[c]) >= Blend(1.0, scores[d])
  }

  /** Those of them that the filters let through. */
  ghost function AcceptedAbove(l: Language, corpus: seq<Entry>, params: Params, scores: map<nat, real>, d: nat): set<nat> {
    set c: nat | c in Outranking(l, corpus, params.q, scores, d) && Accepts(params, corpus[c])
  }

  function RankedDocs(list: seq<Scored>): set<nat> {
    set i | 0 <= i < |list| :: list[i].doc
  }

  lemma {:induction false} DistinctRanked(list: seq<Scored>)
    requires forall i, j :: 0 <= i < j < |list| ==> list[i].doc != list[j].doc
    ensures |RankedDocs(list)| == |list|
  {
    if list != [] {
      var n := |list| - 1;
      DistinctRanked(list[..n]);
      assert RankedDocs(list) == RankedDocs(list[..n]) + {list[n].doc};
      assert list[n].doc !in RankedDocs(list[..n]);
    }
  }

  /** The filtered hits before they are cut to the limit. */
  function Ranked(l: Language, corpus: seq<Entry>, params: Params, order: seq<Candidate>): seq<Scored>
    requires InRange(corpus, Shortlist(order))
  {
    StableSort(Filtered(l, corpus, params, order), BestScoreFirst)
  }

  /** The ranking is made of the accepted records of the shortlist. */
  lemma RankedAccepted(l: Language, corpus: seq<Entry>, params: Params, order: seq<Candidate>)
    requires Enumerates(order, FullScan(l, corpus, params.q, params.fuzzy))
    ensures InRange(corpus, Shortlist(order))
    ensures var ranked := Ranked(l, corpus, params, order);
            (forall s :: s in Rerank(l, corpus, params.q, Shortlist(order)) ==> s.doc < |corpus|)
            && (forall s :: s in ranked <==> s in Rerank(l, corpus, params.q, Shortlist(order))
                                             && Accepts(params, corpus[s.doc]))
            && (forall i, j :: 0 <= i < j < |ranked| ==> ranked[i].doc != ranked[j].doc)
            && Sorted(ranked, BestScoreFirst)
    ensures Returned(l, corpus, params, order) == Take(Ranked(l, corpus, params, order), Limit(params))
  {
    hide FullScan, Shortlist, Enumerates, Rerank, StableSort, Filtered, Accepts;
    FilteredHits(l, corpus, params, order);
    SortRanks(Filtered(l, corpus, params, order));
    var ranked := Ranked(l, corpus, params, order);
    forall i, j | 0 <= i < j < |ranked|
      ensures ranked[i].doc != ranked[j].doc
    {
      assert ranked[i] in ranked && ranked[j] in ranked && ranked[i] != ranked[j];
    }
  }

  /** Behind a best exact match nothing on the shortlist scores more. */
  lemma BehindScoresLess(l: Language, corpus: seq<Entry>, q: string, a: Candidate, b: Candidate)
    requires Lawful(l) && a.doc < |corpus| && b.doc < |corpus| && a.bm25 >= b.bm25 && IsExact(l, corpus[a.doc], q)
    ensures Rescore(l, corpus, q, a).score == Blend(1.0, a.bm25) >= Rescore(l, corpus, q, b).score
  {
    ExactScore(l, corpus, q, a);
    StrengthInUnit(l, corpus[b.doc], q);
  }

  lemma AboveIsOutranking(l: Language, corpus: seq<Entry>, params: Params, order: seq<Candidate>, d: nat, k: nat,
                          i: nat, m: nat)
    requires Lawful(l) && Enumerates(order, FullScan(l, corpus, params.q, params.fuzzy))
    requires BestExact(l, corpus, params.q, FullScan(l, corpus, params.q, params.fuzzy), d)
    requires InRange(corpus, Shortlist(order)) && k < |Shortlist(order)|
    requires IsExact(l, corpus[Shortlist(order)[k].doc], params.q)
    requires Shortlist(order)[k].bm25 == FullScan(l, corpus, params.q, params.fuzzy)[d]
    requires forall j :: 0 <= j < k ==> !IsExact(l, corpus[Shortlist(order)[j].doc], params.q)
    requires m < i < |Ranked(l, corpus, params, order)|
    requires Ranked(l, corpus, params, order)[i] == Rescore(l, corpus, params.q, Shortlist(order)[k])
    ensures Ranked(l, corpus, params, order)[m].doc
            in AcceptedAbove(l, corpus, params, FullScan(l, corpus, params.q, params.fuzzy), d)
  {
    hide FullScan, Shortlist, Enumerates, StableSort, Retain, Rerank, IsExact, Lawful, Blend, Strength, Accepts;
    var list, ranked := Shortlist(order), Ranked(l, corpus, params, order);
    RankedAccepted(l, corpus, params, order);
    ShortlistFacts(l, corpus, params, order);
    var y := ranked[m];
    assert y in ranked && ranked[i] in ranked && BestScoreFirst(y, ranked[i]);
    var j := RerankFrom(l, corpus, params.q, list, y);
    ShortlistedScores(l, corpus, params, order, j);
    assert ranked[m].doc != ranked[i].doc && ranked[i].doc == list[k].doc;
    if j < k {
      assert BestBm25First(list[j], list[k]);
      BehindScoresLess(l, corpus, params.q, list[k], list[k]);
      assert y.score == Blend(Strength(l, corpus[y.doc], params.q), list[j].bm25);
    } else {
      assert BestBm25First(list[k], list[j]);
      BehindScoresLess(l, corpus, params.q, list[k], list[j]);
      StaysAhead(l, corpus, params, list, k, j);
      LaterIsNotBefore(ranked, m, i);
    }
  }

  lemma ShortlistedScores(l: Language, corpus: seq<Entry>, params: Params, order: seq<Candidate>, j: nat)
    requires Enumerates(order, FullScan(l, corpus, params.q, params.fuzzy)) && j < |Shortlist(order)|
    ensures var scores, c := FullScan(l, corpus, params.q, params.fuzzy), Shortlist(order)[j];
            c.doc in scores && scores[c.doc] == c.bm25
  {
    hide FullScan, Shortlist;
    ShortlistFacts(l, corpus, params, order);
    assert Shortlist(order)[j] in Shortlist(order);
  }

  ghost predicate BestAccepted(l: Language, corpus: seq<Entry>, params: Params, scores: map<nat, real>) {
    forall d: nat :: BestExact(l, corpus, params.q, scores, d) ==> Accepts(params, corpus[d])
  }

  lemma FirstExactIs(l: Language, corpus: seq<Entry>, q: string, list: seq<Candidate>, k: nat)
    requires InRange(corpus, list) && k < |list| && IsExact(l, corpus[list[k].doc], q)
    requires forall m :: 0 <= m < k ==> !IsExact(l, corpus[list[m].doc], q)
    ensures FirstExact(l, corpus, q, list) == Some(list[k].doc)
  {
    hide IsExact, FirstExact;
    var first := FirstExact(l, corpus, q, list);
    assert first.Some?;
    var i :| 0 <= i < |list| && list[i].doc == first.value && IsExact(l, corpus[first.value], q)
             && forall j :: 0 <= j < i ==> !IsExact(l, corpus[list[j].doc], q);
    assert i == k;
  }

  /** An exact match with the best score is a best one. */
  lemma AlsoBest(l: Language, corpus: seq<Entry>, q: string, scores: map<nat, real>, d: nat, c: nat)
    requires BestExact(l, corpus, q, scores, d)
    requires c in scores && c < |corpus| && IsExact(l, corpus[c], q) && scores[c] == scores[d]
    ensures BestExact(l, corpus, q, scores, c)
  {
    hide IsExact;
  }

  /** With room on the shortlist and within the limit, the remembered match is returned in every order. */
  lemma FewOutranking(l: Language, corpus: seq<Entry>, params: Params, order: seq<Candidate>, d: nat)
    requires Lawful(l) && Enumerates(order, FullScan(l, corpus, params.q, params.fuzzy))
    requires BestAccepted(l, corpus, params, FullScan(l, corpus, params.q, params.fuzzy))
    requires BestExact(l, corpus, params.q, FullScan(l, corpus, params.q, params.fuzzy), d)
    requires |Rivals(l, corpus, params.q, FullScan(l, corpus, params.q, params.fuzzy), d)| < RERANK_TOP_K
    requires |AcceptedAbove(l, corpus, params, FullScan(l, corpus, params.q, params.fuzzy), d)| < Limit(params)
    ensures InRange(corpus, Shortlist(order)) && ExactFlag(l, corpus, params, order)
  {
    hide FullScan, Shortlist, Enumerates, Ranked, Rerank, Returned, IsExact, Lawful, BestExact, Rivals, AcceptedAbove, Limit, Rescore, Accepts, FirstExact;
    var k := FewRivals(l, corpus, params, order, d);
    RankedAccepted(l, corpus, params, order);
    var list, ranked := Shortlist(order), Ranked(l, corpus, params, order);
    var x := Rescore(l, corpus, params.q, list[k]);
    RerankAt(l, corpus, params.q, list, k);
    RescoredDoc(l, corpus, params.q, list[k]);
    ShortlistedScores(l, corpus, params, order, k);
    AlsoBest(l, corpus, params.q, FullScan(l, corpus, params.q, params.fuzzy), d, x.doc);
    assert x in Rerank(l, corpus, params.q, list);
    var i :| 0 <= i < |ranked| && ranked[i] == x;
    var above := AcceptedAbove(l, corpus, params, FullScan(l, corpus, params.q, params.fuzzy), d);
    forall c | c in RankedDocs(ranked[..i])
      ensures c in above
    {
      var m :| 0 <= m < i && ranked[..i][m].doc == c;
      AboveIsOutranking(l, corpus, params, order, d, k, i, m);
    }
    DistinctRanked(ranked[..i]);
    SubsetSize(RankedDocs(ranked[..i]), above);
    assert Take(ranked, Limit(params))[i] == x;
    FirstExactIs(l, corpus, params.q, list, k);
  }

  /** With the rivals in front, the accepted ones that outrank the exact matches come before each of them in the answer. */
  lemma OutrankingAbove(l: Language, corpus: seq<Entry>, params: Params, order: seq<Candidate>, d: nat, i: nat)
    requires Lawful(l) && Enumerates(order, FullScan(l, corpus, params.q, params.fuzzy))
    requires BestExact(l, corpus, params.q, FullScan(l, corpus, params.q, params.fuzzy), d)
    requires InRange(corpus, Shortlist(order)) && i < |Ranked(l, corpus, params, order)|
    requires RivalsFirst(l, corpus, params.q, FullScan(l, corpus, params.q, params.fuzzy), d,
                         StableSort(order, BestBm25First))
    requires var x := Ranked(l, corpus, params, order)[i]; x.doc < |corpus| && IsExact(l, corpus[x.doc], params.q)
    ensures AcceptedAbove(l, corpus, params, FullScan(l, corpus, params.q, params.fuzzy), d)
            <= RankedDocs(Ranked(l, corpus, params, order)[..i])
  {
    hide FullScan, Enumerates, StableSort, Retain, Rerank, IsExact, Lawful, Blend, Strength, Rivals, Accepts;
    var scores := FullScan(l, corpus, params.q, params.fuzzy);
    var list, ranked := Shortlist(order), Ranked(l, corpus, params, order);
    var sorted := StableSort(order, BestBm25First);
    RankedAccepted(l, corpus, params, order);
    assert ranked[i] in ranked;
    var j := RerankFrom(l, corpus, params.q, list, ranked[i]);
    assert list[j] == sorted[j];
    ShortlistedScores(l, corpus, params, order, j);
    BehindScoresLess(l, corpus, params.q, list[j], list[j]);
    forall c | c in AcceptedAbove(l, corpus, params, scores, d)
      ensures c in RankedDocs(ranked[..i])
    {
      assert c in DocSet(sorted[..j]);
      var m :| 0 <= m < j && sorted[..j][m].doc == c;
      assert list[m] == sorted[m];
      ShortlistedScores(l, corpus, params, order, m);
      BlendMonotone(1.0, scores[d], list[j].bm25);
      StaysAhead(l, corpus, params, list, m, j);
      var a, b :| 0 <= a < b < |ranked| && ranked[a] == Rescore(l, corpus, params.q, list[m]) && ranked[b] == ranked[i];
      assert ranked[..i][a].doc == c;
    }
  }

  /** With the rivals in front and as many as the limit above the exact matches, none of these is returned. */
  lemma ManyOutranking(l: Language, corpus: seq<Entry>, params: Params, order: seq<Candidate>, d: nat)
    requires Lawful(l) && Enumerates(order, FullScan(l, corpus, params.q, params.fuzzy))
    requires BestExact(l, corpus, params.q, FullScan(l, corpus, params.q, params.fuzzy), d)
    requires InRange(corpus, Shortlist(order))
    requires RivalsFirst(l, corpus, params.q, FullScan(l, corpus, params.q, params.fuzzy), d,
                         StableSort(order, BestBm25First))
    requires |AcceptedAbove(l, corpus, params, FullScan(l, corpus, params.q, params.fuzzy), d)| >= Limit(params)
    ensures !ExactFlag(l, corpus, params, order)
  {
    hide FullScan, Shortlist, Enumerates, Ranked, Returned, IsExact, Lawful, BestExact, AcceptedAbove, Limit, RivalsFirst, ExactFlag, RememberedAccepted, Accepts;
    FlagMeaning(l, corpus, params, order);
    if ExactFlag(l, corpus, params, order) {
      RankedAccepted(l, corpus, params, order);
      var ranked := Ranked(l, corpus, params, order);
      var x :| x in Take(ranked, Limit(params)) && x.doc < |corpus| && IsExact(l, corpus[x.doc], params.q);
      var i :| 0 <= i < |Take(ranked, Limit(params))| && Take(ranked, Limit(params))[i] == x;
      assert ranked[i] == x && i < Limit(params);
      OutrankingAbove(l, corpus, params, order, d, i);
      DistinctRanked(ranked[..i]);
      SubsetSize(AcceptedAbove(l, corpus, params, FullScan(l, corpus, params.q, params.fuzzy), d), RankedDocs(ranked[..i]));
    }
  }

  // ----- a best exact match that the filters reject -----

  /** Some order of the candidates puts the given best exact match in front of all others. */
  lemma BestInFront(l: Language, corpus: seq<Entry>, params: Params, d: nat) returns (order: seq<Candidate>)
    requires BestExact(l, corpus, params.q, FullScan(l, corpus, params.q, params.fuzzy), d)
    ensures Enumerates(order, FullScan(l, corpus, params.q, params.fuzzy)) && InRange(corpus, Shortlist(order))
    ensures forall k :: 0 <= k < |Shortlist(order)| && IsExact(l, corpus[Shortlist(order)[k].doc], params.q) ==>
      exists a :: 0 <= a <= k && Shortlist(order)[a].doc == d
  {
    hide FullScan, IsExact, StableSort, Enumerates, NoDuplicates;
    var scores := FullScan(l, corpus, params.q, params.fuzzy);
    var best := Candidate(d, scores[d]);
    var back := EnumerationOf(scores.Keys - {d}, scores);
    order := [best] + back;
    FrontedEnumeration(d, back, scores);
    ShortlistFacts(l, corpus, params, order);
    SortedCandidates(l, corpus, params, order);
    var sorted := StableSort(order, BestBm25First);
    forall k | 0 <= k < |Shortlist(order)| && IsExact(l, corpus[Shortlist(order)[k].doc], params.q)
      ensures exists a :: 0 <= a <= k && Shortlist(order)[a].doc == d
    {
      ShortlistedScores(l, corpus, params, order, k);
      assert Shortlist(order)[k] == sorted[k];
      if sorted[k].doc != d {
        BehindTheFirst(order, scores, back, d, sorted[k]);
        var a, b :| 0 <= a < b < |sorted| && sorted[a] == best && sorted[b] == sorted[k];
        OncePlaced(sorted, b, k);
        assert Shortlist(order)[a] == sorted[a];
      }
    }
  }

  lemma OncePlaced(list: seq<Candidate>, b: nat, k: nat)
    requires NoDuplicates(list) && b < |list| && k < |list| && list[b] == list[k]
    ensures b == k
  {
  }

  lemma FrontedEnumeration(d: nat, back: seq<Candidate>, scores: map<nat, real>)
    requires d in scores && NoDuplicates(back)
    requires forall c :: c in back <==> c.doc in scores.Keys - {d} && c.doc in scores && scores[c.doc] == c.bm25
    ensures Enumerates([Candidate(d, scores[d])] + back, scores)
  {
    JoinedEnumeration({d}, [Candidate(d, scores[d])], back, scores);
  }

  lemma BehindTheFirst(order: seq<Candidate>, scores: map<nat, real>, back: seq<Candidate>, d: nat, x: Candidate)
    requires d in scores && order == [Candidate(d, scores[d])] + back
    requires x in order && x.doc != d && x.bm25 <= scores[d]
    ensures Before(StableSort(order, BestBm25First), order[0], x)
  {
    hide StableSort;
    InFrontOf([order[0]], back, order[0], x);
    SortIsStable(order, BestBm25First, order[0], x);
  }

  lemma BestIsExact(l: Language, corpus: seq<Entry>, q: string, scores: map<nat, real>, d: nat)
    requires BestExact(l, corpus, q, scores, d)
    ensures d < |corpus| && IsExact(l, corpus[d], q)
  {
  }

  /** The exact match in front of all others is the one that is remembered, if any is. */
  lemma FrontIsRemembered(l: Language, corpus: seq<Entry>, q: string, list: seq<Candidate>, d: nat)
    requires InRange(corpus, list) && d < |corpus| && IsExact(l, corpus[d], q)
    requires forall k :: 0 <= k < |list| && IsExact(l, corpus[list[k].doc], q) ==>
      exists a :: 0 <= a <= k && list[a].doc == d
    ensures FirstExact(l, corpus, q, list).Some? ==> FirstExact(l, corpus, q, list).value == d
  {
    hide IsExact;
    var first := FirstExact(l, corpus, q, list);
    if first.Some? {
      var i :| 0 <= i < |list| && list[i].doc == first.value && IsExact(l, corpus[first.value], q)
               && forall j :: 0 <= j < i ==> !IsExact(l, corpus[list[j].doc], q);
      var a :| 0 <= a <= i && list[a].doc == d;
      assert a == i;
    }
  }

  /** If the filters reject it, nothing is flagged. */
  lemma RejectedIsUnflagged(l: Language, corpus: seq<Entry>, params: Params, d: nat) returns (order: seq<Candidate>)
    requires BestExact(l, corpus, params.q, FullScan(l, corpus, params.q, params.fuzzy), d) && !Accepts(params, corpus[d])
    ensures Enumerates(order, FullScan(l, corpus, params.q, params.fuzzy)) && InRange(corpus, Shortlist(order))
    ensures !ExactFlag(l, corpus, params, order)
  {
    hide FullScan, Shortlist, Enumerates, Returned, IsExact, Accepts, ExactFlag, ReturnsExact, FirstExact, BestExact;
    order := BestInFront(l, corpus, params, d);
    BestIsExact(l, corpus, params.q, FullScan(l, corpus, params.q, params.fuzzy), d);
    FrontIsRemembered(l, corpus, params.q, Shortlist(order), d);
    FlagMeaning(l, corpus, params, order);
  }

  // ----- the main results -----

  /**
    Exact recall, for every filter and every limit: a search flags an exact match in every order of the hash map if
    and only if the filters accept every exact match with the best BM25 score, fewer than 200 other candidates have at
    least that score, and fewer than the limit of those are accepted and have at least its blended score, too.
   */
  lemma RecallWithFilters(l: Language, corpus: seq<Entry>, params: Params, d: nat)
    requires Lawful(l)
    requires BestExact(l, corpus, params.q, FullScan(l, corpus, params.q, params.fuzzy), d)
    ensures (forall order :: Enumerates(order, FullScan(l, corpus, params.q, params.fuzzy)) ==>
               InRange(corpus, Shortlist(order)) && ExactFlag(l, corpus, params, order))
            <==> BestAccepted(l, corpus, params, FullScan(l, corpus, params.q, params.fuzzy))
                 && |Rivals(l, corpus, params.q, FullScan(l, corpus, params.q, params.fuzzy), d)| < RERANK_TOP_K
                 && |AcceptedAbove(l, corpus, params, FullScan(l, corpus, params.q, params.fuzzy), d)| < Limit(params)
  {
    hide FullScan, Shortlist, ExactFlag, Rivals, AcceptedAbove, IsExact, Enumerates, InRange, Lawful, Limit, Accepts;
    var scores := FullScan(l, corpus, params.q, params.fuzzy);
    if !BestAccepted(l, corpus, params, scores) {
      var b: nat :| BestExact(l, corpus, params.q, scores, b) && !Accepts(params, corpus[b]);
      var order := RejectedIsUnflagged(l, corpus, params, b);
    } else if |Rivals(l, corpus, params.q, scores, d)| < RERANK_TOP_K
              && |AcceptedAbove(l, corpus, params, scores, d)| < Limit(params) {
      forall order | Enumerates(order, scores)
        ensures InRange(corpus, Shortlist(order)) && ExactFlag(l, corpus, params, order)
      {
        FewOutranking(l, corpus, params, order, d);
      }
    } else {
      var order := RivalsInFront(l, corpus, params, d);
      if |Rivals(l, corpus, params.q, scores, d)| >= RERANK_TOP_K {
        ManyRivals(l, corpus, params, d, order);
        UnlistedIsUnflagged(l, corpus, params, order);
      } else {
        ManyOutranking(l, corpus, params, order, d);
      }
    }
  }

  /** Without filters everything is accepted. */
  lemma RecallAtLimit(l: Language, corpus: seq<Entry>, params: Params, d: nat)
    requires Lawful(l) && Unfiltered(params)
    requires BestExact(l, corpus, params.q, FullScan(l, corpus, params.q, params.fuzzy), d)
    ensures (forall order :: Enumerates(order, FullScan(l, corpus, params.q, params.fuzzy)) ==>
               InRange(corpus, Shortlist(order)) && ExactFlag(l, corpus, params, order))
            <==> |Rivals(l, corpus, params.q, FullScan(l, corpus, params.q, params.fuzzy), d)| < RERANK_TOP_K
                 && |Outranking(l, corpus, params.q, FullScan(l, corpus, params.q, params.fuzzy), d)| < Limit(params)
  {
    hide FullScan, Shortlist, ExactFlag, BestExact, Rivals, IsExact, Enumerates, InRange, Lawful, Limit, Blend, Strength;
    RecallWithFilters(l, corpus, params, d);
    assert AcceptedAbove(l, corpus, params, FullScan(l, corpus, params.q, params.fuzzy), d)
        == Outranking(l, corpus, params.q, FullScan(l, corpus, params.q, params.fuzzy), d);
  }

  /** With a limit of at least 200 only the cut at 200 matters, and the similarity may be any function. */
  lemma RecallUnderCut(l: Language, corpus: seq<Entry>, params: Params, d: nat)
    requires Unfiltered(params) && Limit(params) >= RERANK_TOP_K
    requires BestExact(l, corpus, params.q, FullScan(l, corpus, params.q, params.fuzzy), d)
    ensures (forall order :: Enumerates(order, FullScan(l, corpus, params.q, params.fuzzy)) ==>
               InRange(corpus, Shortlist(order)) && ExactFlag(l, corpus, params, order))
            <==> |Rivals(l, corpus, params.q, FullScan(l, corpus, params.q, params.fuzzy), d)| < RERANK_TOP_K
  {
    hide FullScan, Shortlist, ExactFlag, BestExact, Rivals, IsExact, Enumerates, InRange;
    if |Rivals(l, corpus, params.q, FullScan(l, corpus, params.q, params.fuzzy), d)| < RERANK_TOP_K {
      forall order | Enumerates(order, FullScan(l, corpus, params.q, params.fuzzy))
        ensures InRange(corpus, Shortlist(order)) && ExactFlag(l, corpus, params, order)
      {
        var k := FewRivals(l, corpus, params, order, d);
        ShortlistFacts(l, corpus, params, order);
        ShortlistedIsFlagged(l, corpus, params, order, k);
      }
    } else {
      var order := RivalsInFront(l, corpus, params, d);
      ManyRivals(l, corpus, params, d, order);
      UnlistedIsUnflagged(l, corpus, params, order);
    }
  }

  lemma BestExactExists(l: Language, corpus: seq<Entry>, q: string, scores: map<nat, real>, x: nat) returns (d: nat)
    requires x in scores && x < |corpus| && IsExact(l, corpus[x], q)
    ensures BestExact(l, corpus, q, scores, d)
  {
    hide IsExact;
    var exact := set c: nat | c in scores.Keys && c < |corpus| && IsExact(l, corpus[c], q);
    assert x in exact;
    d := HighestOf(exact, scores);
  }

  lemma {:induction false} HighestOf(docs: set<nat>, scores: map<nat, real>) returns (d: nat)
    requires docs != {} && docs <= scores.Keys
    ensures d in docs && forall c :: c in docs ==> scores[c] <= scores[d]
    decreases |docs|
  {
    var x :| x in docs;
    if docs == {x} {
      d := x;
    } else {
      var y := HighestOf(docs - {x}, scores);
      d := if scores[x] >= scores[y] then x else y;
    }
  }

  lemma NoCandidatesNoFlag(l: Language, corpus: seq<Entry>, params: Params, order: seq<Candidate>)
    requires Enumerates(order, FullScan(l, corpus, params.q, params.fuzzy)) && InRange(corpus, Shortlist(order))
    requires !params.fuzzy && Tokenize(l, params.q) == []
    ensures !ExactFlag(l, corpus, params, order)
  {
    hide StableSort;
    NothingScanned(l, corpus, params);
    EnumeratedDocs(order, FullScan(l, corpus, params.q, params.fuzzy));
    SortElements(order, BestBm25First);
  }

  lemma NothingScanned(l: Language, corpus: seq<Entry>, params: Params)
    requires !params.fuzzy && Tokenize(l, params.q) == []
    ensures FullScan(l, corpus, params.q, params.fuzzy) == map[]
  {
    hide Bm25;
    forall d: nat
      ensures d !in FullScan(l, corpus, params.q, params.fuzzy)
    {
      if d < |corpus| {
        NoTokensNoShare(l, corpus[d]);
      }
    }
  }

  /**
    Exact recall. An unfiltered search with at most 200 candidates and a limit that covers them flags an exact match
    if and only if the corpus has one and the search is fuzzy or the query has a token; and then the result is red.
   */
  lemma ExactRecall(l: Language, corpus: seq<Entry>, params: Params, order: seq<Candidate>)
    requires Lawful(l) && Unfiltered(params)
    requires Enumerates(order, FullScan(l, corpus, params.q, params.fuzzy))
    requires |FullScan(l, corpus, params.q, params.fuzzy)| <= RERANK_TOP_K
    requires |FullScan(l, corpus, params.q, params.fuzzy)| <= Limit(params)
    ensures InRange(corpus, Shortlist(order))
    ensures ExactFlag(l, corpus, params, order)
            <==> (exists e :: e in corpus && IsExact(l, e, params.q)) && (params.fuzzy || Tokenize(l, params.q) != [])
    ensures ExactFlag(l, corpus, params, order) ==> ResultTlp(l, corpus, params, order) == Red
  {
    hide Shortlist, ExactFlag, IsExact, Enumerates, Tokenize, ResultTlp, Limit, Lawful, Trigrams, Overlap, Needed, SharesToken, Bm25;
    ShortlistFacts(l, corpus, params, order);
    if ExactFlag(l, corpus, params, order) {
      FlagMeansRed(l, corpus, params, order);
      FlagUnfiltered(l, corpus, params, order);
      ExactInCorpus(l, corpus, params, order);
      if !params.fuzzy && Tokenize(l, params.q) == [] {
        NoCandidatesNoFlag(l, corpus, params, order);
      }
    }
    if e :| e in corpus && IsExact(l, e, params.q) && (params.fuzzy || Tokenize(l, params.q) != []) {
      var x :| 0 <= x < |corpus| && corpus[x] == e;
      ExactIsCandidate(l, e, params.q, params.fuzzy);
      assert x in FullScan(l, corpus, params.q, params.fuzzy);
      SmallRecall(l, corpus, params, order, x);
    }
  }

  lemma ExactInCorpus(l: Language, corpus: seq<Entry>, params: Params, order: seq<Candidate>)
    requires InRange(corpus, Shortlist(order)) && ReturnsExact(l, corpus, params, order)
    ensures exists e :: e in corpus && IsExact(l, e, params.q)
  {
    hide IsExact, Shortlist, Returned;
    var s :| s in Returned(l, corpus, params, order) && s.doc < |corpus| && IsExact(l, corpus[s.doc], params.q);
    assert corpus[s.doc] in corpus;
  }

  lemma SmallRecall(l: Language, corpus: seq<Entry>, params: Params, order: seq<Candidate>, x: nat)
    requires Unfiltered(params) && Enumerates(order, FullScan(l, corpus, params.q, params.fuzzy))
    requires |FullScan(l, corpus, params.q, params.fuzzy)| <= RERANK_TOP_K
    requires |FullScan(l, corpus, params.q, params.fuzzy)| <= Limit(params)
    requires x in FullScan(l, corpus, params.q, params.fuzzy) && x < |corpus| && IsExact(l, corpus[x], params.q)
    requires InRange(corpus, Shortlist(order))
    ensures ExactFlag(l, corpus, params, order)
  {
    hide FullScan, ExactFlag, IsExact, StableSort, Limit;
    var scores := FullScan(l, corpus, params.q, params.fuzzy);
    var d := BestExactExists(l, corpus, params.q, scores, x);
    var rivals := Rivals(l, corpus, params.q, scores, d);
    assert rivals <= scores.Keys - {d};
    SubsetSize(rivals, scores.Keys - {d});
    var k := FewRivals(l, corpus, params, order, d);
    EnumeratedDocs(order, scores);
    SortElements(order, BestBm25First);
    ShortlistedIsFlagged(l, corpus, params, order, k);
  }
}

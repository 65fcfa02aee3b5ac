/** When the engine reports an exact match, and when an exact match of the corpus is reported. */
module Exact {
  import opened Wrappers
  import opened Sorting
  import opened Text
  import opened Corpus
  import opened Index
  import opened Scan
  import opened Ranking

  // ----- the flag and the returned hits -----

  ghost predicate ReturnsExact(l: Language, corpus: seq<Entry>, params: Params, order: seq<Candidate>)
    requires InRange(corpus, Shortlist(order))
  {
    exists s :: s in Returned(l, corpus, params, order) && s.doc < |corpus| && IsExact(l, corpus[s.doc], params.q)
  }

  /** The exact match that the engine remembers, the first one by BM25, passes the filters. */
  ghost predicate RememberedAccepted(l: Language, corpus: seq<Entry>, params: Params, order: seq<Candidate>)
    requires InRange(corpus, Shortlist(order))
  {
    var first := FirstExact(l, corpus, params.q, Shortlist(order));
    first.Some? && first.value < |corpus| && Accepts(params, corpus[first.value])
  }

  predicate Unfiltered(params: Params) {
    params.sources.None? && params.entityTypes.None?
  }

  lemma ExactScore(l: Language, corpus: seq<Entry>, q: string, c: Candidate)
    requires c.doc < |corpus| && IsExact(l, corpus[c.doc], q)
    ensures Rescore(l, corpus, q, c) == Scored(c.doc, Blend(1.0, c.bm25), 1.0, c.bm25)
  {
    hide Blend, IsExact;
  }

  lemma RerankAt(l: Language, corpus: seq<Entry>, q: string, list: seq<Candidate>, i: nat)
    requires InRange(corpus, list) && i < |list|
    ensures Rerank(l, corpus, q, list)[i] == Rescore(l, corpus, q, list[i])
  {
    hide Rescore;
  }

  lemma RerankFrom(l: Language, corpus: seq<Entry>, q: string, list: seq<Candidate>, s: Scored) returns (i: nat)
    requires InRange(corpus, list) && s in Rerank(l, corpus, q, list)
    ensures i < |list| && s == Rescore(l, corpus, q, list[i]) && s.doc == list[i].doc
  {
    hide Strength, Blend;
    i :| 0 <= i < |list| && Rerank(l, corpus, q, list)[i] == s;
  }

  /** Of two accepted candidates the one that is first on the shortlist and scores no less stays in front. */
  lemma StaysAhead(l: Language, corpus: seq<Entry>, params: Params, list: seq<Candidate>, i: nat, j: nat)
    requires InRange(corpus, list) && i < j < |list|
    requires Accepts(params, corpus[list[i].doc]) && Accepts(params, corpus[list[j].doc])
    requires Rescore(l, corpus, params.q, list[i]).score >= Rescore(l, corpus, params.q, list[j]).score
    ensures Before(StableSort(Retain(corpus, params, Rerank(l, corpus, params.q, list)), BestScoreFirst),
                   Rescore(l, corpus, params.q, list[i]), Rescore(l, corpus, params.q, list[j]))
  {
    hide Accepts, Rescore, Blend, StableSort, Retain, Rerank;
    RerankAt(l, corpus, params.q, list, i);
    RerankAt(l, corpus, params.q, list, j);
    var scored := Rerank(l, corpus, params.q, list);
    assert Before(scored, scored[i], scored[j]);
    RerankInRange(l, corpus, params.q, list);
    RetainKeepsBefore(corpus, params, scored, scored[i], scored[j]);
    SortIsStable(Retain(corpus, params, scored), BestScoreFirst, scored[i], scored[j]);
  }

  /** An exact match further down the shortlist never overtakes the remembered one. */
  lemma RememberedStaysAhead(l: Language, corpus: seq<Entry>, params: Params, list: seq<Candidate>, i: nat, j: nat)
    requires InRange(corpus, list) && Sorted(list, BestBm25First) && i < j < |list|
    requires IsExact(l, corpus[list[i].doc], params.q) && IsExact(l, corpus[list[j].doc], params.q)
    requires Accepts(params, corpus[list[i].doc]) && Accepts(params, corpus[list[j].doc])
    ensures Before(StableSort(Retain(corpus, params, Rerank(l, corpus, params.q, list)), BestScoreFirst),
                   Rescore(l, corpus, params.q, list[i]), Rescore(l, corpus, params.q, list[j]))
  {
    hide IsExact, Accepts, Rescore, Blend, StableSort, Retain, Rerank;
    ExactScore(l, corpus, params.q, list[i]);
    ExactScore(l, corpus, params.q, list[j]);
    assert BestBm25First(list[i], list[j]);
    BlendMonotone(1.0, list[i].bm25, list[j].bm25);
    StaysAhead(l, corpus, params, list, i, j);
  }

  lemma RerankInRange(l: Language, corpus: seq<Entry>, q: string, list: seq<Candidate>)
    requires InRange(corpus, list)
    ensures forall i :: 0 <= i < |list| ==> Rerank(l, corpus, q, list)[i].doc == list[i].doc < |corpus|
  {
    hide Strength, Blend;
  }

  lemma TakeKeepsAhead(sorted: seq<Scored>, limit: nat, a: Scored, b: Scored)
    requires NoDuplicates(sorted) && Before(sorted, a, b) && b in Take(sorted, limit)
    ensures a in Take(sorted, limit)
  {
    if |sorted| > limit {
      PrefixHolds(sorted, limit, a, b);
    } else {
      var i, j :| 0 <= i < j < |sorted| && sorted[i] == a && sorted[j] == b;
    }
  }

  lemma RememberedIsReturned(l: Language, corpus: seq<Entry>, params: Params, order: seq<Candidate>, x: Scored)
    requires Enumerates(order, FullScan(l, corpus, params.q, params.fuzzy))
    requires InRange(corpus, Shortlist(order)) && RememberedAccepted(l, corpus, params, order)
    requires x in Returned(l, corpus, params, order) && x.doc < |corpus| && IsExact(l, corpus[x.doc], params.q)
    ensures ExactFlag(l, corpus, params, order)
  {
    hide IsExact, Accepts, Rescore, FullScan, StableSort, Retain, Rerank, Enumerates, Shortlist, Filtered;
    FilteredHits(l, corpus, params, order);
    TopOfFiltered(l, corpus, params, order);
    ShortlistFacts(l, corpus, params, order);
    var list := Shortlist(order);
    var filtered := Filtered(l, corpus, params, order);
    var sorted := StableSort(filtered, BestScoreFirst);
    SortRanks(filtered);
    assert x in filtered;
    var j := RerankFrom(l, corpus, params.q, list, x);
    var first := FirstExact(l, corpus, params.q, list);
    var i :| 0 <= i < |list| && list[i].doc == first.value
             && forall k :: 0 <= k < i ==> !IsExact(l, corpus[list[k].doc], params.q);
    if i < j {
      ShortlistedPair(l, corpus, params, order, i, j);
      var s := Rescore(l, corpus, params.q, list[i]);
      TakeKeepsAhead(sorted, Limit(params), s, x);
      assert s in Returned(l, corpus, params, order);
      RescoredDoc(l, corpus, params.q, list[i]);
    }
  }

  lemma RescoredDoc(l: Language, corpus: seq<Entry>, q: string, c: Candidate)
    requires c.doc < |corpus|
    ensures Rescore(l, corpus, q, c).doc == c.doc
  {
    hide Strength, Blend;
  }

  lemma ShortlistedPair(l: Language, corpus: seq<Entry>, params: Params, order: seq<Candidate>, i: nat, j: nat)
    requires InRange(corpus, Shortlist(order)) && Sorted(Shortlist(order), BestBm25First) && i < j < |Shortlist(order)|
    requires var list := Shortlist(order);
             IsExact(l, corpus[list[i].doc], params.q) && IsExact(l, corpus[list[j].doc], params.q)
             && Accepts(params, corpus[list[i].doc]) && Accepts(params, corpus[list[j].doc])
    ensures Before(StableSort(Filtered(l, corpus, params, order), BestScoreFirst),
                   Rescore(l, corpus, params.q, Shortlist(order)[i]), Rescore(l, corpus, params.q, Shortlist(order)[j]))
  {
    hide IsExact, Accepts, Rescore, StableSort, Retain, Rerank, Shortlist;
    RememberedStaysAhead(l, corpus, params, Shortlist(order), i, j);
  }

  /**
    The flag is set exactly when some returned hit is an exact match and the remembered exact match passes the
    filters.
   */
  lemma FlagMeaning(l: Language, corpus: seq<Entry>, params: Params, order: seq<Candidate>)
    requires Enumerates(order, FullScan(l, corpus, params.q, params.fuzzy))
    ensures InRange(corpus, Shortlist(order))
    ensures ExactFlag(l, corpus, params, order)
            <==> ReturnsExact(l, corpus, params, order) && RememberedAccepted(l, corpus, params, order)
  {
    hide IsExact, Accepts, FullScan, Returned, Enumerates, Shortlist;
    TopOfFiltered(l, corpus, params, order);
    if ReturnsExact(l, corpus, params, order) && RememberedAccepted(l, corpus, params, order) {
      var x :| x in Returned(l, corpus, params, order) && x.doc < |corpus| && IsExact(l, corpus[x.doc], params.q);
      RememberedIsReturned(l, corpus, params, order, x);
    }
  }

  lemma ExactReturnedIsRemembered(l: Language, corpus: seq<Entry>, params: Params, order: seq<Candidate>)
    requires Enumerates(order, FullScan(l, corpus, params.q, params.fuzzy))
    requires InRange(corpus, Shortlist(order)) && ReturnsExact(l, corpus, params, order)
    ensures var first := FirstExact(l, corpus, params.q, Shortlist(order)); first.Some? && first.value < |corpus|
  {
    hide IsExact, Accepts, FullScan, Enumerates, Shortlist, Returned, Rerank, Rescore, Filtered, BestOf;
    var x :| x in Returned(l, corpus, params, order) && x.doc < |corpus| && IsExact(l, corpus[x.doc], params.q);
    FilteredHits(l, corpus, params, order);
    TopOfFiltered(l, corpus, params, order);
    ReturnedAreFiltered(l, corpus, params, order, x);
    var j := RerankFrom(l, corpus, params.q, Shortlist(order), x);
  }

  lemma ReturnedAreFiltered(l: Language, corpus: seq<Entry>, params: Params, order: seq<Candidate>, x: Scored)
    requires InRange(corpus, Shortlist(order)) && x in Returned(l, corpus, params, order)
    requires BestOf(Returned(l, corpus, params, order), Filtered(l, corpus, params, order), Limit(params))
    ensures x in Filtered(l, corpus, params, order)
  {
    hide Returned, Filtered, Shortlist;
  }

  /** Without filters the flag says precisely whether an exact match is among the returned hits. */
  lemma FlagUnfiltered(l: Language, corpus: seq<Entry>, params: Params, order: seq<Candidate>)
    requires Enumerates(order, FullScan(l, corpus, params.q, params.fuzzy)) && Unfiltered(params)
    ensures InRange(corpus, Shortlist(order))
    ensures ExactFlag(l, corpus, params, order) <==> ReturnsExact(l, corpus, params, order)
  {
    FlagMeaning(l, corpus, params, order);
    hide ExactFlag, FullScan, Shortlist, Enumerates, ReturnsExact;
    if ReturnsExact(l, corpus, params, order) {
      ExactReturnedIsRemembered(l, corpus, params, order);
    }
  }

  // ----- how strong the hits above an exact match are -----

  /** Nothing is ranked above an exact match unless its name similarity is at least 4/7. */
  lemma AboveExact(l: Language, corpus: seq<Entry>, params: Params, order: seq<Candidate>, i: nat, j: nat)
    requires Lawful(l) && Enumerates(order, FullScan(l, corpus, params.q, params.fuzzy))
    requires InRange(corpus, Shortlist(order))
    requires i < j < |Returned(l, corpus, params, order)|
    requires var x := Returned(l, corpus, params, order)[j]; x.doc < |corpus| && IsExact(l, corpus[x.doc], params.q)
    ensures Returned(l, corpus, params, order)[i].strength >= 4.0 / 7.0
  {
    hide IsExact, Accepts, FullScan, Enumerates, Shortlist, Returned, Rerank, Filtered;
    FilteredHits(l, corpus, params, order);
    TopOfFiltered(l, corpus, params, order);
    ScoresInUnit(l, corpus, params, order);
    var returned := Returned(l, corpus, params, order);
    assert returned[i] in returned && returned[j] in returned;
    var a := RerankFrom(l, corpus, params.q, Shortlist(order), returned[i]);
    var b := RerankFrom(l, corpus, params.q, Shortlist(order), returned[j]);
    ExactScore(l, corpus, params.q, Shortlist(order)[b]);
    BlendAbove(returned[i].strength, returned[i].bm25, returned[j].bm25);
  }

  lemma BlendAbove(strength: real, bm25: real, exactBm25: real)
    requires exactBm25 >= 0.0
    requires Blend(strength, bm25) >= Blend(1.0, exactBm25)
    ensures strength >= 4.0 / 7.0
  {
  }

  // ----- which exact matches are candidates -----

  lemma {:induction false} FieldTokensIncluded(l: Language, fields: seq<string>, i: nat)
    requires i < |fields|
    ensures forall t :: t in Tokenize(l, fields[i]) ==> t in TokensOf(l, fields)
  {
    hide Tokenize;
    if i < |fields| - 1 {
      FieldTokensIncluded(l, fields[..|fields| - 1], i);
    }
  }

  lemma NameOfExact(l: Language, e: Entry, q: string) returns (i: nat)
    requires IsExact(l, e, q)
    ensures i < |Fields(e)| && l.normalize(Fields(e)[i]) == l.normalize(q)
  {
    var names := [e.name] + e.aliases;
    i :| 0 <= i < |names| && l.normalize(names[i]) == l.normalize(q);
    assert Fields(e)[i] == names[i];
  }

  lemma {:induction false} FullOverlap(l: Language, e: Entry, grams: seq<string>)
    requires forall g :: g in grams ==> HasGram(l, e, g)
    ensures Overlap(l, e, grams) == |grams|
  {
    hide HasGram;
    if grams != [] {
      FullOverlap(l, e, grams[..|grams| - 1]);
    }
  }

  lemma ExactHasGrams(l: Language, e: Entry, q: string)
    requires Lawful(l) && IsExact(l, e, q)
    ensures Trigrams(l, q) != [] && Overlap(l, e, Trigrams(l, q)) >= Needed(Trigrams(l, q))
  {
    hide Lawful;
    HasTrigrams(l, q);
    NormalizedTwice(l, q);
    hide Trigrams, Surfaces;
    forall g | g in Trigrams(l, q)
      ensures HasGram(l, e, g)
    {
      assert g in Trigrams(l, l.normalize(q));
    }
    FullOverlap(l, e, Trigrams(l, q));
  }

  lemma ExactSharesTokens(l: Language, e: Entry, q: string)
    requires IsExact(l, e, q) && Tokenize(l, q) != []
    ensures SharesToken(l, e, Tokenize(l, q))
  {
    var i := NameOfExact(l, e, q);
    assert Tokenize(l, Fields(e)[i]) == Tokenize(l, q);
    hide Tokenize, Fields, IsExact;
    FieldTokensIncluded(l, Fields(e), i);
    var t := Tokenize(l, q)[0];
    assert t in Tokenize(l, q) && t in DocTokens(l, e);
  }

  lemma NoTokensNoShare(l: Language, e: Entry)
    ensures !SharesToken(l, e, [])
  {
  }

  /** An exact match is a candidate unless the search is not fuzzy and the query has no token. */
  lemma ExactIsCandidate(l: Language, e: Entry, q: string, fuzzy: bool)
    requires Lawful(l) && IsExact(l, e, q)
    ensures IsCandidate(l, e, q, fuzzy) <==> fuzzy || Tokenize(l, q) != []
  {
    hide IsExact, SharesToken, Overlap, Needed, Lawful, Tokenize, Trigrams;
    NoTokensNoShare(l, e);
    if fuzzy {
      ExactHasGrams(l, e, q);
    }
    if Tokenize(l, q) != [] {
      ExactSharesTokens(l, e, q);
    }
  }

  /** An exact match always puts the result in the red band. */
  lemma FlagMeansRed(l: Language, corpus: seq<Entry>, params: Params, order: seq<Candidate>)
    requires InRange(corpus, Shortlist(order)) && ExactFlag(l, corpus, params, order)
    ensures ResultTlp(l, corpus, params, order) == Red
  {
  }
}

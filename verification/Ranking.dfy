/** From candidates to hits: the best 200 by BM25, reranked by name similarity, filtered, sorted and cut. */
module Ranking {
  import opened Wrappers
  import opened Sorting
  import opened Text
  import opened Corpus
  import opened Index
  import opened Scan

  const RERANK_TOP_K := 200
  const JW_WEIGHT := 0.7
  const BM25_REFERENCE := 5.0

  datatype Params = Params(
    q: string,
    sources: Option<seq<string>>,
    entityTypes: Option<seq<EntityType>>,
    fuzzy: bool,
    limit: nat
  )

  datatype Candidate = Candidate(doc: nat, bm25: real)

  datatype Scored = Scored(doc: nat, score: real, strength: real, bm25: real)

  datatype Hit = Hit(entryId: string, score: real, matchedFields: seq<string>, snippet: string, tlp: Tlp)

  datatype SearchResult = SearchResult(tlp: Tlp, hits: seq<Hit>, exactAliasMatch: bool)

  // ----- the stages, as functions of the order in which the candidates were taken from their hash map -----

  /** `order` lists every candidate once, with its score; which order it is, the hash map decides. */
  ghost predicate Enumerates(order: seq<Candidate>, candidates: map<nat, real>) {
    && NoDuplicates(order)
    && (forall c :: c in order <==> c.doc in candidates && candidates[c.doc] == c.bm25)
  }

  predicate BestBm25First(a: Candidate, b: Candidate) {
    a.bm25 >= b.bm25
  }

  predicate BestScoreFirst(a: Scored, b: Scored) {
    a.score >= b.score
  }

  function Shortlist(order: seq<Candidate>): seq<Candidate> {
    Take(StableSort(order, BestBm25First), RERANK_TOP_K)
  }

  predicate IsExact(l: Language, e: Entry, q: string) {
    l.normalize(q) != [] && l.normalize(q) in Surfaces(l, e)
  }

  function BestSimilarity(l: Language, surfaces: seq<string>, norm: string): real {
    if surfaces == [] then 0.0
    else
      var n := |surfaces| - 1;
      Max(BestSimilarity(l, surfaces[..n], norm), l.similarity(surfaces[n], norm))
  }

  /** How well the best name or alias matches; an exact match is certain. */
  function Strength(l: Language, e: Entry, q: string): real {
    if IsExact(l, e, q) then 1.0 else BestSimilarity(l, Surfaces(l, e), l.normalize(q))
  }

  function Min(a: real, b: real): real {
    if a <= b then a else b
  }

  function Blend(strength: real, bm25: real): real {
    JW_WEIGHT * strength + (1.0 - JW_WEIGHT) * Min(bm25 / BM25_REFERENCE, 1.0)
  }

  predicate InRange(corpus: seq<Entry>, list: seq<Candidate>) {
    forall i :: 0 <= i < |list| ==> list[i].doc < |corpus|
  }

  function Rescore(l: Language, corpus: seq<Entry>, q: string, c: Candidate): Scored
    requires c.doc < |corpus|
  {
    var strength := Strength(l, corpus[c.doc], q);
    Scored(c.doc, Blend(strength, c.bm25), strength, c.bm25)
  }

  function Rerank(l: Language, corpus: seq<Entry>, q: string, list: seq<Candidate>): (r: seq<Scored>)
    requires InRange(corpus, list)
    ensures |r| == |list|
  {
    seq(|list|, i requires 0 <= i < |list| => Rescore(l, corpus, q, list[i]))
  }

  /** The first exact match of the shortlist: the only one that the engine remembers. */
  function FirstExact(l: Language, corpus: seq<Entry>, q: string, list: seq<Candidate>): (r: Option<nat>)
    requires InRange(corpus, list)
    ensures r == None ==> forall i :: 0 <= i < |list| ==> !IsExact(l, corpus[list[i].doc], q)
    ensures r.Some? ==> exists i :: 0 <= i < |list| && list[i].doc == r.value && IsExact(l, corpus[r.value], q)
                                    && forall j :: 0 <= j < i ==> !IsExact(l, corpus[list[j].doc], q)
  {
    if list == [] then None
    else if IsExact(l, corpus[list[0].doc], q) then Some(list[0].doc)
    else
      assert forall i :: 0 <= i < |list| - 1 ==> list[1..][i] == list[i + 1];
      FirstExact(l, corpus, q, list[1..])
  }

  predicate Accepts(params: Params, e: Entry) {
    && (params.sources.None? || e.sourceList in params.sources.value)
    && (params.entityTypes.None? || e.entityType in params.entityTypes.value)
  }

  function Retain(corpus: seq<Entry>, params: Params, list: seq<Scored>): seq<Scored>
    requires forall i :: 0 <= i < |list| ==> list[i].doc < |corpus|
  {
    if list == [] then []
    else
      var n := |list| - 1;
      Retain(corpus, params, list[..n]) + if Accepts(params, corpus[list[n].doc]) then [list[n]] else []
  }

  function Limit(params: Params): nat {
    if params.limit < 1 then 1 else params.limit
  }

  function Filtered(l: Language, corpus: seq<Entry>, params: Params, order: seq<Candidate>): seq<Scored>
    requires InRange(corpus, Shortlist(order))
  {
    Retain(corpus, params, Rerank(l, corpus, params.q, Shortlist(order)))
  }

  function Returned(l: Language, corpus: seq<Entry>, params: Params, order: seq<Candidate>): seq<Scored>
    requires InRange(corpus, Shortlist(order))
  {
    Take(StableSort(Filtered(l, corpus, params, order), BestScoreFirst), Limit(params))
  }

  function ExactFlag(l: Language, corpus: seq<Entry>, params: Params, order: seq<Candidate>): bool
    requires InRange(corpus, Shortlist(order))
  {
    var first := FirstExact(l, corpus, params.q, Shortlist(order));
    first.Some? && exists s :: s in Returned(l, corpus, params, order) && s.doc == first.value
  }

  function ResultTlp(l: Language, corpus: seq<Entry>, params: Params, order: seq<Candidate>): Tlp
    requires InRange(corpus, Shortlist(order))
  {
    var returned := Returned(l, corpus, params, order);
    Band(if returned == [] then None else Some(returned[0].strength),
         ExactFlag(l, corpus, params, order), DEFAULT_THRESHOLDS)
  }

  predicate AddressMatches(l: Language, e: Entry, q: string) {
    exists t :: t in Tokenize(l, q) && exists a :: a in e.addresses && t in Tokenize(l, a)
  }

  function HitTlp(strength: real, rememberedExact: bool): Tlp {
    if rememberedExact then Red
    else if strength >= DEFAULT_THRESHOLDS.red then Red
    else if strength >= DEFAULT_THRESHOLDS.yellow then Yellow
    else Green
  }

  function HitOf(l: Language, corpus: seq<Entry>, q: string, s: Scored, first: Option<nat>): Hit
    requires s.doc < |corpus|
  {
    var e := corpus[s.doc];
    Hit(e.id, s.score,
        (if s.strength >= 0.95 then ["name"] else []) + (if AddressMatches(l, e, q) then ["addresses"] else []),
        e.name, HitTlp(s.strength, first == Some(s.doc)))
  }

  // ----- candidates, shortlist and scores -----

  lemma ShortlistFacts(l: Language, corpus: seq<Entry>, params: Params, order: seq<Candidate>)
    requires Enumerates(order, FullScan(l, corpus, params.q, params.fuzzy))
    ensures InRange(corpus, Shortlist(order)) && |Shortlist(order)| <= RERANK_TOP_K
    ensures NoDuplicates(Shortlist(order)) && Sorted(Shortlist(order), BestBm25First)
    ensures forall c :: c in Shortlist(order) ==> c in order
    ensures |order| <= RERANK_TOP_K ==> forall c :: c in order ==> c in Shortlist(order)
    ensures forall i, j :: 0 <= i < j < |Shortlist(order)| ==> Shortlist(order)[i].doc != Shortlist(order)[j].doc
  {
    hide FullScan, StableSort;
    var sorted := StableSort(order, BestBm25First);
    SortElements(order, BestBm25First);
    SameElements(sorted, order);
    SortSorts(order, BestBm25First);
    SortKeepsDistinct(order, BestBm25First);
    var list := Shortlist(order);
    forall c | c in list
      ensures c in order && c.doc < |corpus|
    {
      assert c in sorted;
      ScannedInRange(l, corpus, params, c.doc);
    }
    forall i, j | 0 <= i < j < |list|
      ensures list[i].doc != list[j].doc
    {
      assert list[i] in order && list[j] in order && list[i] != list[j];
    }
  }

  lemma ScannedInRange(l: Language, corpus: seq<Entry>, params: Params, doc: nat)
    ensures doc in FullScan(l, corpus, params.q, params.fuzzy) ==> doc < |corpus|
  {
  }

  lemma {:induction false} SimilarityInUnit(l: Language, surfaces: seq<string>, norm: string)
    requires Lawful(l)
    ensures 0.0 <= BestSimilarity(l, surfaces, norm) <= 1.0
  {
    if surfaces != [] {
      SimilarityInUnit(l, surfaces[..|surfaces| - 1], norm);
    }
  }

  lemma StrengthInUnit(l: Language, e: Entry, q: string)
    requires Lawful(l)
    ensures 0.0 <= Strength(l, e, q) <= 1.0
  {
    SimilarityInUnit(l, Surfaces(l, e), l.normalize(q));
  }

  lemma IdfNonNegative(l: Language, n: nat, df: nat)
    requires Lawful(l) && df <= n
    ensures Idf(l, n, df) >= 0.0
  {
    var x := (n as real - df as real + 0.5) / (df as real + 0.5) + 1.0;
    assert 0.0 < 1.0 <= x;
    assert l.ln(1.0) <= l.ln(x);
  }

  lemma ContributionNonNegative(idf: real, tf: nat, docLen: nat, avg: real)
    requires idf >= 0.0
    ensures Contribution(idf, tf, docLen, avg) >= 0.0
  {
    var numerator := idf * (tf as real * (K1 + 1.0));
    var denominator := Denominator(tf, docLen, avg);
    assert denominator > 0.0 && numerator >= 0.0;
    QuotientNonNegative(numerator, denominator);
  }

  /** A term never contributes more than its inverse document frequency times 2.2, however often it occurs. */
  lemma ContributionBounded(idf: real, tf: nat, docLen: nat, avg: real)
    requires idf >= 0.0
    ensures Contribution(idf, tf, docLen, avg) <= idf * (K1 + 1.0)
  {
    var d := Denominator(tf, docLen, avg);
    var ratio := B * docLen as real / Max(avg, 1.0);
    QuotientNonNegative(B * docLen as real, Max(avg, 1.0));
    assert d >= tf as real && d > 0.0;
    var x := idf * (K1 + 1.0);
    assert idf * (tf as real * (K1 + 1.0)) == x * tf as real;
    QuotientBounded(x, tf as real, d);
  }

  lemma QuotientBounded(x: real, a: real, d: real)
    requires x >= 0.0 && d > 0.0 && 0.0 <= a <= d
    ensures x * a / d <= x
  {
    assert x * a <= x * d;
    var q := x * a / d;
    assert q * d == x * a;
    if q > x {
      assert q * d > x * d;
    }
  }

  lemma QuotientNonNegative(a: real, b: real)
    requires a >= 0.0 && b > 0.0
    ensures a / b >= 0.0
  {
  }

  /** Every inverse document frequency, and with it every BM25 sum, is at least zero. */
  lemma {:induction false} Bm25NonNegative(l: Language, corpus: seq<Entry>, query: seq<string>, doc: nat)
    requires Lawful(l) && doc < |corpus|
    ensures Bm25(l, corpus, query, doc) >= 0.0
  {
    if query != [] {
      var term := query[|query| - 1];
      Bm25NonNegative(l, corpus, query[..|query| - 1], doc);
      var tokens := DocTokens(l, corpus[doc]);
      IdfNonNegative(l, |corpus|, Df(l, corpus, term));
      ContributionNonNegative(Idf(l, |corpus|, Df(l, corpus, term)), multiset(tokens)[term], |tokens|,
                              AverageLength(DocLens(l, corpus)));
    }
  }

  lemma BlendInUnit(strength: real, bm25: real)
    requires 0.0 <= strength <= 1.0 && bm25 >= 0.0
    ensures 0.0 <= Blend(strength, bm25) <= 1.0
  {
  }

  lemma BlendMonotone(strength: real, a: real, b: real)
    requires a >= b
    ensures Blend(strength, a) >= Blend(strength, b)
  {
  }

  /** Every score that the ranking works with is in [0, 1]. */
  lemma ScoresInUnit(l: Language, corpus: seq<Entry>, params: Params, order: seq<Candidate>)
    requires Lawful(l) && Enumerates(order, FullScan(l, corpus, params.q, params.fuzzy))
    requires InRange(corpus, Shortlist(order))
    ensures forall s :: s in Rerank(l, corpus, params.q, Shortlist(order)) ==>
      0.0 <= s.score <= 1.0 && 0.0 <= s.strength <= 1.0 && s.bm25 >= 0.0
  {
    ShortlistFacts(l, corpus, params, order);
    var list := Shortlist(order);
    var scored := Rerank(l, corpus, params.q, list);
    forall s | s in scored
      ensures 0.0 <= s.score <= 1.0 && 0.0 <= s.strength <= 1.0 && s.bm25 >= 0.0
    {
      var i :| 0 <= i < |scored| && scored[i] == s;
      assert list[i] in list;
      ShortlistedScore(l, corpus, params, order, list[i]);
      StrengthInUnit(l, corpus[s.doc], params.q);
      BlendInUnit(s.strength, s.bm25);
    }
  }

  lemma ShortlistedScore(l: Language, corpus: seq<Entry>, params: Params, order: seq<Candidate>, c: Candidate)
    requires Lawful(l) && Enumerates(order, FullScan(l, corpus, params.q, params.fuzzy)) && c in order
    ensures c.doc < |corpus| && c.bm25 == Bm25(l, corpus, Tokenize(l, params.q), c.doc) && c.bm25 >= 0.0
  {
    hide Bm25;
    assert c.doc in FullScan(l, corpus, params.q, params.fuzzy);
    Bm25NonNegative(l, corpus, Tokenize(l, params.q), c.doc);
  }

  // ----- filtering, sorting and cutting -----

  lemma {:induction false} RetainFacts(corpus: seq<Entry>, params: Params, list: seq<Scored>)
    requires forall i :: 0 <= i < |list| ==> list[i].doc < |corpus|
    ensures forall s :: s in Retain(corpus, params, list) <==> s in list && Accepts(params, corpus[s.doc])
    ensures NoDuplicates(list) ==> NoDuplicates(Retain(corpus, params, list))
  {
    hide Accepts;
    if list != [] {
      var n := |list| - 1;
      RetainFacts(corpus, params, list[..n]);
      assert list == list[..n] + [list[n]];
      var kept := Retain(corpus, params, list[..n]);
      assert Retain(corpus, params, list) == kept + if Accepts(params, corpus[list[n].doc]) then [list[n]] else [];
      hide Retain;
      assert NoDuplicates(list) ==> list[n] !in list[..n];
    }
  }

  lemma {:induction false} RetainKeepsBefore(corpus: seq<Entry>, params: Params, list: seq<Scored>, a: Scored, b: Scored)
    requires forall i :: 0 <= i < |list| ==> list[i].doc < |corpus|
    requires Before(list, a, b) && Accepts(params, corpus[a.doc]) && Accepts(params, corpus[b.doc])
    ensures Before(Retain(corpus, params, list), a, b)
  {
    var n := |list| - 1;
    BeforeTheLast(list, a, b);
    var kept := Retain(corpus, params, list[..n]);
    assert Retain(corpus, params, list) == kept + if Accepts(params, corpus[list[n].doc]) then [list[n]] else [];
    hide Accepts, Before;
    if Before(list[..n], a, b) {
      RetainKeepsBefore(corpus, params, list[..n], a, b);
      StillBefore(kept, if Accepts(params, corpus[list[n].doc]) then [list[n]] else [], a, b);
    } else {
      RetainFacts(corpus, params, list[..n]);
      hide Retain;
      LastBehind(kept, a, b);
    }
  }

  lemma StillBefore<T>(s: seq<T>, more: seq<T>, a: T, b: T)
    requires Before(s, a, b)
    ensures Before(s + more, a, b)
  {
    var i, j :| 0 <= i < j < |s| && s[i] == a && s[j] == b;
    assert (s + more)[i] == a && (s + more)[j] == b;
  }

  lemma LastBehind<T>(s: seq<T>, a: T, b: T)
    requires a in s
    ensures Before(s + [b], a, b)
  {
    var i :| 0 <= i < |s| && s[i] == a;
    assert (s + [b])[i] == a && (s + [b])[|s|] == b;
  }

  lemma RerankDistinct(l: Language, corpus: seq<Entry>, q: string, list: seq<Candidate>)
    requires InRange(corpus, list)
    requires forall i, j :: 0 <= i < j < |list| ==> list[i].doc != list[j].doc
    ensures forall i :: 0 <= i < |list| ==> Rerank(l, corpus, q, list)[i].doc < |corpus|
    ensures NoDuplicates(Rerank(l, corpus, q, list))
    ensures forall s, t :: s in Rerank(l, corpus, q, list) && t in Rerank(l, corpus, q, list) && s.doc == t.doc ==> s == t
  {
    hide Strength, Blend;
  }

  ghost predicate FilteredFrom(filtered: seq<Scored>, scored: seq<Scored>, corpus: seq<Entry>, params: Params) {
    && (forall s :: s in scored ==> s.doc < |corpus|)
    && (forall s :: s in filtered <==> s in scored && Accepts(params, corpus[s.doc]))
    && (forall s, t :: s in scored && t in scored && s.doc == t.doc ==> s == t)
    && NoDuplicates(filtered)
  }

  /** What the filters leave: exactly the accepted records of the shortlist, each once. */
  lemma FilteredHits(l: Language, corpus: seq<Entry>, params: Params, order: seq<Candidate>)
    requires Enumerates(order, FullScan(l, corpus, params.q, params.fuzzy))
    ensures InRange(corpus, Shortlist(order))
    ensures FilteredFrom(Filtered(l, corpus, params, order), Rerank(l, corpus, params.q, Shortlist(order)), corpus, params)
  {
    ShortlistFacts(l, corpus, params, order);
    hide Shortlist, Enumerates, FullScan, Accepts, Retain;
    RerankDistinct(l, corpus, params.q, Shortlist(order));
    hide Rerank;
    FilteredFromRetain(corpus, params, Rerank(l, corpus, params.q, Shortlist(order)));
  }

  lemma FilteredFromRetain(corpus: seq<Entry>, params: Params, scored: seq<Scored>)
    requires forall i :: 0 <= i < |scored| ==> scored[i].doc < |corpus|
    requires forall s, t :: s in scored && t in scored && s.doc == t.doc ==> s == t
    requires NoDuplicates(scored)
    ensures FilteredFrom(Retain(corpus, params, scored), scored, corpus, params)
  {
    hide Accepts, Retain;
    RetainFacts(corpus, params, scored);
  }

  /** `sorted` is `all`, best first. */
  ghost predicate RankingOf(sorted: seq<Scored>, all: seq<Scored>) {
    && |sorted| == |all| && NoDuplicates(sorted) && Sorted(sorted, BestScoreFirst)
    && (forall s :: s in sorted <==> s in all)
  }

  lemma SortRanks(all: seq<Scored>)
    requires NoDuplicates(all)
    ensures RankingOf(StableSort(all, BestScoreFirst), all)
  {
    SortElements(all, BestScoreFirst);
    SameElements(StableSort(all, BestScoreFirst), all);
    SortSorts(all, BestScoreFirst);
    SortKeepsDistinct(all, BestScoreFirst);
  }

  /** The best `limit` of `all`: no record twice, best first, and nothing left out beats what is in. */
  ghost predicate BestOf(best: seq<Scored>, all: seq<Scored>, limit: nat) {
    && |best| == (if |all| < limit then |all| else limit)
    && (forall i, j :: 0 <= i < j < |best| ==> best[i].doc != best[j].doc && best[i].score >= best[j].score)
    && (forall s :: s in best ==> s in all)
    && (forall s, r :: s in all && s !in best && r in best ==> s.score <= r.score)
  }

  /**
    The answer is a top-k of the filtered shortlist: at most `limit` records (one when the limit is zero), all
    accepted by the filters.
   */
  lemma TopOfFiltered(l: Language, corpus: seq<Entry>, params: Params, order: seq<Candidate>)
    requires Enumerates(order, FullScan(l, corpus, params.q, params.fuzzy))
    ensures InRange(corpus, Shortlist(order))
    ensures BestOf(Returned(l, corpus, params, order), Filtered(l, corpus, params, order), Limit(params))
    ensures forall s :: s in Returned(l, corpus, params, order) ==> s.doc < |corpus| && Accepts(params, corpus[s.doc])
  {
    FilteredHits(l, corpus, params, order);
    BestAfterSort(l, corpus, params, order);
  }

  lemma BestAfterSort(l: Language, corpus: seq<Entry>, params: Params, order: seq<Candidate>)
    requires InRange(corpus, Shortlist(order))
    requires FilteredFrom(Filtered(l, corpus, params, order), Rerank(l, corpus, params.q, Shortlist(order)), corpus, params)
    ensures BestOf(Returned(l, corpus, params, order), Filtered(l, corpus, params, order), Limit(params))
    ensures forall s :: s in Returned(l, corpus, params, order) ==> s.doc < |corpus| && Accepts(params, corpus[s.doc])
  {
    hide Filtered, StableSort, Shortlist, Rerank, Accepts, Limit, Take;
    var filtered := Filtered(l, corpus, params, order);
    SortRanks(filtered);
    BestPrefix(filtered, StableSort(filtered, BestScoreFirst), Limit(params));
  }

  lemma BestPrefix(all: seq<Scored>, sorted: seq<Scored>, limit: nat)
    requires RankingOf(sorted, all)
    requires forall s, t :: s in all && t in all && s.doc == t.doc ==> s == t
    ensures BestOf(Take(sorted, limit), all, limit)
  {
    var best := Take(sorted, limit);
    assert best == sorted[..|best|];
    forall s, r | s in all && s !in best && r in best
      ensures s.score <= r.score
    {
      assert sorted == best + sorted[|best|..];
      var j :| |best| <= j < |sorted| && sorted[j] == s;
      var i :| 0 <= i < |best| && best[i] == r;
      assert BestScoreFirst(sorted[i], sorted[j]);
    }
    forall i, j | 0 <= i < j < |best|
      ensures best[i].doc != best[j].doc && best[i].score >= best[j].score
    {
      assert sorted[i] in sorted && sorted[j] in sorted && sorted[i] != sorted[j];
      assert BestScoreFirst(sorted[i], sorted[j]);
    }
    forall s | s in best
      ensures s in all
    {
      assert s in sorted;
    }
  }
}

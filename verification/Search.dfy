/** The query method of the engine. */
module Search {
  import opened Wrappers
  import opened Sorting
  import opened Text
  import opened Corpus
  import opened Index
  import opened Scan
  import opened Candidates
  import opened Ranking
  import opened Exact

  /** The candidates in whatever order the hash map gives them. */
  method Drain(candidates: map<nat, real>) returns (order: seq<Candidate>)
    ensures Enumerates(order, candidates)
  {
    order := [];
    var rest := candidates.Keys;
    while rest != {}
      invariant rest <= candidates.Keys
      invariant NoDuplicates(order)
      invariant forall c :: c in order <==> c.doc in candidates && c.doc !in rest && candidates[c.doc] == c.bm25
      decreases |rest|
    {
      var d :| d in rest;
      order := order + [Candidate(d, candidates[d])];
      rest := rest - {d};
    }
  }

  /** The best similarity of one record; an exact match ends the loop. */
  method MatchStrength(l: Language, surfaces: seq<string>, norm: string) returns (strength: real, exact: bool)
    requires forall s, t :: 0.0 <= l.similarity(s, t) <= 1.0
    ensures exact <==> norm != [] && norm in surfaces
    ensures strength == if exact then 1.0 else BestSimilarity(l, surfaces, norm)
  {
    strength, exact := 0.0, false;
    for i := 0 to |surfaces|
      invariant !exact
      invariant norm == [] || norm !in surfaces[..i]
      invariant strength == BestSimilarity(l, surfaces[..i], norm)
    {
      var s := surfaces[i];
      if s == norm && norm != [] {
        return 1.0, true;
      }
      var similarity := l.similarity(s, norm);
      if similarity > strength {
        strength := similarity;
      }
      assert surfaces[..i + 1][..i] == surfaces[..i];
    }
    assert surfaces[..|surfaces|] == surfaces;
  }

  lemma {:induction false} FirstExactOneMore(l: Language, corpus: seq<Entry>, q: string, list: seq<Candidate>, c: Candidate)
    requires InRange(corpus, list) && c.doc < |corpus|
    ensures InRange(corpus, list + [c])
    ensures FirstExact(l, corpus, q, list + [c])
            == if FirstExact(l, corpus, q, list).Some? then FirstExact(l, corpus, q, list)
               else if IsExact(l, corpus[c.doc], q) then Some(c.doc) else None
  {
    hide IsExact;
    if list != [] {
      FirstExactOneMore(l, corpus, q, list[1..], c);
      assert (list + [c])[1..] == list[1..] + [c];
    }
  }

  lemma RerankOneMore(l: Language, corpus: seq<Entry>, q: string, list: seq<Candidate>, c: Candidate)
    requires InRange(corpus, list) && c.doc < |corpus|
    ensures InRange(corpus, list + [c])
    ensures Rerank(l, corpus, q, list + [c]) == Rerank(l, corpus, q, list) + [Rescore(l, corpus, q, c)]
  {
    hide Rescore;
  }

  /** The loop over the shortlist: the scores, and the first exact match. */
  method RerankAll(l: Language, e: Engine, q: string, list: seq<Candidate>, ghost corpus: seq<Entry>)
    returns (scored: seq<Scored>, first: Option<nat>)
    requires Lawful(l) && IndexOf(l, e, corpus) && InRange(corpus, list)
    ensures scored == Rerank(l, corpus, q, list)
    ensures first == FirstExact(l, corpus, q, list)
  {
    hide Rerank, FirstExact, IndexOf, Blend, Surfaces, BestSimilarity;
    SurfacesAgree(l, e, corpus);
    EmptyRerank(l, corpus, q);
    var norm := l.normalize(q);
    scored := [];
    first := None;
    for i := 0 to |list|
      invariant scored == Rerank(l, corpus, q, list[..i])
      invariant first == FirstExact(l, corpus, q, list[..i])
    {
      var c := list[i];
      var strength, exact := MatchStrength(l, e.surfaces[c.doc], norm);
      if exact && first.None? {
        first := Some(c.doc);
      }
      scored := scored + [Scored(c.doc, Blend(strength, c.bm25), strength, c.bm25)];
      FirstExactOneMore(l, corpus, q, list[..i], c);
      RerankOneMore(l, corpus, q, list[..i], c);
      assert list[..i + 1] == list[..i] + [c];
    }
    assert list[..|list|] == list;
  }

  lemma EmptyRerank(l: Language, corpus: seq<Entry>, q: string)
    ensures Rerank(l, corpus, q, []) == [] && FirstExact(l, corpus, q, []) == None
  {
  }

  lemma SurfacesAgree(l: Language, e: Engine, corpus: seq<Entry>)
    requires IndexOf(l, e, corpus)
    ensures |e.surfaces| == |corpus| && forall d :: 0 <= d < |corpus| ==> e.surfaces[d] == Surfaces(l, corpus[d])
    ensures e.entries == corpus && e.thresholds == DEFAULT_THRESHOLDS
  {
    hide Surfaces, DocTokens;
  }

  /** `retain`: one pass that keeps the accepted records in place. */
  method RetainAccepted(corpus: seq<Entry>, params: Params, scored: seq<Scored>) returns (kept: seq<Scored>)
    requires forall i :: 0 <= i < |scored| ==> scored[i].doc < |corpus|
    ensures kept == Retain(corpus, params, scored)
  {
    kept := [];
    for i := 0 to |scored|
      invariant kept == Retain(corpus, params, scored[..i])
    {
      if Accepts(params, corpus[scored[i].doc]) {
        kept := kept + [scored[i]];
      }
      assert scored[..i + 1][..i] == scored[..i];
    }
    assert scored[..|scored|] == scored;
  }

  method CollectHits(l: Language, corpus: seq<Entry>, q: string, returned: seq<Scored>, first: Option<nat>)
    returns (hits: seq<Hit>)
    requires forall i :: 0 <= i < |returned| ==> returned[i].doc < |corpus|
    ensures |hits| == |returned|
    ensures forall i :: 0 <= i < |returned| ==> hits[i] == HitOf(l, corpus, q, returned[i], first)
  {
    hits := [];
    for i := 0 to |returned|
      invariant |hits| == i
      invariant forall j :: 0 <= j < i ==> hits[j] == HitOf(l, corpus, q, returned[j], first)
    {
      hits := hits + [HitOf(l, corpus, q, returned[i], first)];
    }
  }

  /** The hits, the flag and the band are those of the pipeline, for the candidates of a full scan in some order. */
  ghost predicate ResultOf(l: Language, corpus: seq<Entry>, params: Params, order: seq<Candidate>, r: SearchResult) {
    && InRange(corpus, Shortlist(order))
    && (forall s :: s in Returned(l, corpus, params, order) ==> s.doc < |corpus|)
    && r.exactAliasMatch == ExactFlag(l, corpus, params, order)
    && r.tlp == ResultTlp(l, corpus, params, order)
    && var returned := Returned(l, corpus, params, order);
       var first := FirstExact(l, corpus, params.q, Shortlist(order));
       |r.hits| == |returned|
       && forall i :: 0 <= i < |returned| ==>
            returned[i] in returned && r.hits[i] == HitOf(l, corpus, params.q, returned[i], first)
  }

  /** What a search of the corpus may answer: ties at equal BM25 leave the order of the candidates open. */
  ghost predicate MayAnswer(l: Language, corpus: seq<Entry>, params: Params, r: SearchResult) {
    exists order ::
      Enumerates(order, FullScan(l, corpus, params.q, params.fuzzy)) && ResultOf(l, corpus, params, order, r)
  }

  /** Stages two to four: cut, rerank, filter, sort, cut. */
  method Rank(l: Language, e: Engine, params: Params, byBm25: seq<Candidate>, ghost corpus: seq<Entry>)
    returns (returned: seq<Scored>, first: Option<nat>)
    requires Lawful(l) && IndexOf(l, e, corpus) && InRange(corpus, Shortlist(byBm25))
    ensures returned == Returned(l, corpus, params, byBm25)
    ensures first == FirstExact(l, corpus, params.q, Shortlist(byBm25))
  {
    hide StableSort, Rerank, Retain, Lawful, FirstExact, IndexOf;
    SurfacesAgree(l, e, corpus);
    var shortlist := StableSort(byBm25, BestBm25First);
    if |shortlist| > RERANK_TOP_K {
      shortlist := shortlist[..RERANK_TOP_K];
    }
    returned, first := RerankAll(l, e, params.q, shortlist, corpus);
    RerankInRange(l, corpus, params.q, shortlist);
    returned := RetainAccepted(e.entries, params, returned);
    returned := StableSort(returned, BestScoreFirst);
    if |returned| > Limit(params) {
      returned := returned[..Limit(params)];
    }
  }

  /** All six stages of one search: collect, cut, rerank, filter, flag and describe. */
  method Search(l: Language, e: Engine, params: Params, ghost corpus: seq<Entry>)
    returns (r: SearchResult)
    requires Lawful(l) && IndexOf(l, e, corpus)
    ensures MayAnswer(l, corpus, params, r)
  {
    hide FullScan, Shortlist, Returned, HitOf, Lawful, Enumerates, FirstExact, BestOf, IndexOf, Accepts;
    SurfacesAgree(l, e, corpus);
    var bm25 := Collect(l, e, params.q, params.fuzzy, corpus);
    var byBm25 := Drain(bm25);
    ShortlistFacts(l, corpus, params, byBm25);
    TopOfFiltered(l, corpus, params, byBm25);
    var scored, first := Rank(l, e, params, byBm25, corpus);
    var exact := first.Some? && exists s :: s in scored && s.doc == first.value;
    var top := if scored == [] then None else Some(scored[0].strength);
    var tlp := Band(top, exact, e.thresholds);
    assert forall i :: 0 <= i < |scored| ==> scored[i] in scored;
    var hits := CollectHits(l, e.entries, params.q, scored, first);
    r := SearchResult(tlp, hits, exact);
    assert ResultOf(l, corpus, params, byBm25, r);
  }

  /** What one hit says about its record; `score` is 0.7 of the strength and 0.06 of the BM25 score, which counts up to 5. */
  ghost predicate Describes(l: Language, corpus: seq<Entry>, params: Params, d: nat, hit: Hit) {
    && d < |corpus| && hit.entryId == corpus[d].id && hit.snippet == corpus[d].name
    && Accepts(params, corpus[d])
    && var strength, bm25 := Strength(l, corpus[d], params.q), Bm25(l, corpus, Tokenize(l, params.q), d);
       hit.score == 0.7 * strength + (if bm25 > 5.0 then 0.3 else 0.06 * bm25)
       && (IsExact(l, corpus[d], params.q) ==> hit.tlp == Red)
       && (hit.tlp == Red <==> 0.95 <= strength)
       && (hit.tlp == Yellow <==> 0.75 <= strength < 0.95)
       && (hit.tlp == Green <==> strength < 0.75)
       && (forall f :: f in hit.matchedFields ==> f == "name" || f == "addresses")
       && ("name" in hit.matchedFields <==> strength >= 0.95)
       && ("addresses" in hit.matchedFields <==>
             exists a, t :: a in corpus[d].addresses && t in Tokenize(l, a) && t in Tokenize(l, params.q))
  }

  /** The band of a whole answer: that of its first hit, but red when the flag is set and green without hits. */
  ghost predicate BandOf(tlp: Tlp, flagged: bool, top: Option<real>) {
    && (tlp == Red <==> flagged || (top.Some? && top.value >= 0.95))
    && (tlp == Yellow <==> !flagged && top.Some? && 0.75 <= top.value < 0.95)
  }

  function TopStrength(l: Language, corpus: seq<Entry>, q: string, docs: seq<nat>): Option<real> {
    if docs == [] || docs[0] >= |corpus| then None else Some(Strength(l, corpus[docs[0]], q))
  }

  /**
    Every hit describes an accepted record of the corpus, no two the same one; the scores descend, and the band of the
    answer follows from its flag and its first hit.
   */
  lemma HitsDescribeRecords(l: Language, corpus: seq<Entry>, params: Params, order: seq<Candidate>, r: SearchResult)
    returns (docs: seq<nat>)
    requires Enumerates(order, FullScan(l, corpus, params.q, params.fuzzy)) && ResultOf(l, corpus, params, order, r)
    ensures |docs| == |r.hits| <= if params.limit == 0 then 1 else params.limit
    ensures forall d :: d in docs ==> d < |corpus|
    ensures forall i :: 0 <= i < |docs| ==> Describes(l, corpus, params, docs[i], r.hits[i])
    ensures forall i, j :: 0 <= i < j < |docs| ==> docs[i] != docs[j] && r.hits[i].score >= r.hits[j].score
    ensures BandOf(r.tlp, r.exactAliasMatch, TopStrength(l, corpus, params.q, docs))
  {
    hide FullScan, Shortlist, Returned, Enumerates, Accepts, IsExact, FirstExact, Rerank, Filtered, Describes, AddressMatches, Strength;
    TopOfFiltered(l, corpus, params, order);
    FilteredHits(l, corpus, params, order);
    var returned := Returned(l, corpus, params, order);
    var first := FirstExact(l, corpus, params.q, Shortlist(order));
    docs := seq(|returned|, i requires 0 <= i < |returned| => returned[i].doc);
    forall i | 0 <= i < |r.hits|
      ensures Describes(l, corpus, params, docs[i], r.hits[i])
      ensures returned[i].strength == Strength(l, corpus[docs[i]], params.q)
    {
      assert returned[i] in returned && returned[i] in Filtered(l, corpus, params, order);
      var k := RerankFrom(l, corpus, params.q, Shortlist(order), returned[i]);
      ScannedScore(l, corpus, params, order, k);
      HitDescribes(l, corpus, params, Shortlist(order)[k], first);
    }
  }

  lemma ScannedScore(l: Language, corpus: seq<Entry>, params: Params, order: seq<Candidate>, k: nat)
    requires Enumerates(order, FullScan(l, corpus, params.q, params.fuzzy)) && k < |Shortlist(order)|
    ensures var c := Shortlist(order)[k];
            c.doc < |corpus| && c.bm25 == Bm25(l, corpus, Tokenize(l, params.q), c.doc)
  {
    hide Shortlist, Bm25, IsCandidate;
    ShortlistFacts(l, corpus, params, order);
    assert Shortlist(order)[k] in order;
  }

  lemma HitDescribes(l: Language, corpus: seq<Entry>, params: Params, c: Candidate, first: Option<nat>)
    requires c.doc < |corpus| && Accepts(params, corpus[c.doc])
    requires c.bm25 == Bm25(l, corpus, Tokenize(l, params.q), c.doc)
    requires first == Some(c.doc) ==> IsExact(l, corpus[c.doc], params.q)
    ensures Describes(l, corpus, params, c.doc, HitOf(l, corpus, params.q, Rescore(l, corpus, params.q, c), first))
  {
    hide Accepts, IsExact, BestSimilarity, Tokenize, Bm25;
    var e := corpus[c.doc];
    var hit := HitOf(l, corpus, params.q, Rescore(l, corpus, params.q, c), first);
    assert "addresses" in hit.matchedFields <==> AddressMatches(l, e, params.q) by {
      assert "addresses" != "name";
    }
  }
}

/** The first stage of a query: scores accumulated over the index equal the full scan. */
module Candidates {
  import opened Text
  import opened Corpus
  import opened Index
  import opened Scan

  function At<T>(m: map<nat, T>, doc: nat, default: T): T {
    if doc in m then m[doc] else default
  }

  lemma TablesAgree(l: Language, e: Engine, corpus: seq<Entry>)
    requires IndexOf(l, e, corpus)
    ensures e.docLens == DocLens(l, corpus) && e.avgDocLen == AverageLength(DocLens(l, corpus))
  {
    assert e.docLens == DocLens(l, corpus);
  }

  /** What the walk over the first postings of a term has done to the scores. */
  ghost predicate Walked(l: Language, corpus: seq<Entry>, term: string, ps: seq<Posting>,
                         before: map<nat, real>, after: map<nat, real>)
    requires forall i :: 0 <= i < |ps| ==> ps[i].doc < |corpus|
  {
    && (forall d: nat :: d in after <==> d in before || HasPosting(ps, d))
    && (forall d: nat :: d in after ==>
          after[d] == At(before, d, 0.0) + if HasPosting(ps, d) then TermScore(l, corpus, term, d) else 0.0)
  }

  lemma WalkedOneMore(l: Language, corpus: seq<Entry>, term: string, ps: seq<Posting>, p: Posting,
                      before: map<nat, real>, after: map<nat, real>)
    requires forall i :: 0 <= i < |ps| ==> ps[i].doc < p.doc
    requires p.doc < |corpus|
    requires Walked(l, corpus, term, ps, before, after)
    ensures Walked(l, corpus, term, ps + [p], before,
                   after[p.doc := At(after, p.doc, 0.0) + TermScore(l, corpus, term, p.doc)])
  {
    hide TermScore, HasPosting;
    HasOneMore(ps, p);
    assert p.doc !in after || !HasPosting(ps, p.doc);
  }

  lemma HasOneMore(ps: seq<Posting>, p: Posting)
    ensures forall d: nat :: HasPosting(ps + [p], d) <==> HasPosting(ps, d) || d == p.doc
    ensures (forall i :: 0 <= i < |ps| ==> ps[i].doc < p.doc) ==> !HasPosting(ps, p.doc)
  {
    forall d: nat
      ensures HasPosting(ps + [p], d) <==> HasPosting(ps, d) || d == p.doc
    {
      if HasPosting(ps, d) {
        var i :| 0 <= i < |ps| && ps[i].doc == d;
        assert (ps + [p])[i].doc == d;
      }
      assert (ps + [p])[|ps|].doc == p.doc;
    }
  }

  lemma PostingScore(l: Language, e: Engine, corpus: seq<Entry>, term: string, p: Posting)
    requires IndexOf(l, e, corpus) && PostingFor(l, corpus, term, p)
    ensures Contribution(Idf(l, |corpus|, Df(l, corpus, term)), p.tf, e.docLens[p.doc], e.avgDocLen)
            == TermScore(l, corpus, term, p.doc)
  {
    TablesAgree(l, e, corpus);
  }

  /** Adds one query token to the scores. */
  method AddTerm(l: Language, e: Engine, bm25: map<nat, real>, term: string, ghost corpus: seq<Entry>)
    returns (bm25': map<nat, real>)
    requires IndexOf(l, e, corpus)
    ensures forall d: nat :: d in bm25' <==> d in bm25 || (d < |corpus| && term in DocTokens(l, corpus[d]))
    ensures forall d: nat :: d in bm25' && d < |corpus| ==>
      bm25'[d] == At(bm25, d, 0.0) + TermScore(l, corpus, term, d)
  {
    hide IndexOf, DocTokens, TermScore, PostingsOf, Df, Contribution, Idf, Walked, HasPosting, PostingFor;
    TermLookup(l, e, corpus, term);
    PostedDocs(l, corpus, term);
    bm25' := bm25;
    if term in e.inverted {
      bm25' := WalkPostings(l, e, bm25, term, corpus);
      WalkedAll(l, corpus, term, e.inverted[term], bm25, bm25');
    } else {
      NotPosted(l, corpus, term);
    }
  }

  lemma TermLookup(l: Language, e: Engine, corpus: seq<Entry>, term: string)
    requires IndexOf(l, e, corpus)
    ensures Lookup(e.inverted, term) == PostingsOf(l, corpus, term) && e.entries == corpus
    ensures |e.docLens| == |corpus|
    ensures forall i :: 0 <= i < |PostingsOf(l, corpus, term)| ==> PostingsOf(l, corpus, term)[i].doc < |corpus|
  {
    PostingLists(l, corpus, term);
  }

  lemma WalkedAll(l: Language, corpus: seq<Entry>, term: string, ps: seq<Posting>,
                  before: map<nat, real>, after: map<nat, real>)
    requires ps == PostingsOf(l, corpus, term)
    requires forall i :: 0 <= i < |ps| ==> ps[i].doc < |corpus|
    requires Walked(l, corpus, term, ps, before, after)
    ensures forall d: nat :: d in after <==> d in before || (d < |corpus| && term in DocTokens(l, corpus[d]))
    ensures forall d: nat :: d in after && d < |corpus| ==> after[d] == At(before, d, 0.0) + TermScore(l, corpus, term, d)
  {
    hide DocTokens, PostingsOf, Contribution, Idf, Df;
    PostedDocs(l, corpus, term);
  }

  /** The inner loop: one contribution for every posting of the term. */
  method WalkPostings(l: Language, e: Engine, bm25: map<nat, real>, term: string, ghost corpus: seq<Entry>)
    returns (bm25': map<nat, real>)
    requires IndexOf(l, e, corpus) && term in e.inverted
    requires forall i :: 0 <= i < |e.inverted[term]| ==> e.inverted[term][i].doc < |corpus|
    ensures Walked(l, corpus, term, e.inverted[term], bm25, bm25')
  {
    hide IndexOf, DocTokens, TermScore, PostingsOf, Df, Contribution, Idf, Walked, HasPosting, PostingFor;
    var postings := e.inverted[term];
    TermLookup(l, e, corpus, term);
    PostingLists(l, corpus, term);
    var idf := Idf(l, |e.entries|, |postings|);
    bm25' := bm25;
    NothingWalked(l, corpus, term, bm25);
    for j := 0 to |postings|
      invariant Walked(l, corpus, term, postings[..j], bm25, bm25')
    {
      var p := postings[j];
      PostingScore(l, e, corpus, term, p);
      var contribution := Contribution(idf, p.tf, e.docLens[p.doc], e.avgDocLen);
      WalkedOneMore(l, corpus, term, postings[..j], p, bm25, bm25');
      assert postings[..j] + [p] == postings[..j + 1];
      bm25' := bm25'[p.doc := At(bm25', p.doc, 0.0) + contribution];
    }
    assert postings[..|postings|] == postings;
  }

  lemma NothingWalked(l: Language, corpus: seq<Entry>, term: string, bm25: map<nat, real>)
    ensures Walked(l, corpus, term, [], bm25, bm25)
  {
  }

  lemma PostedDocs(l: Language, corpus: seq<Entry>, term: string)
    ensures forall d: nat :: HasPosting(PostingsOf(l, corpus, term), d) <==> d < |corpus| && term in DocTokens(l, corpus[d])
  {
    PostingLists(l, corpus, term);
  }

  lemma NotPosted(l: Language, corpus: seq<Entry>, term: string)
    requires PostingsOf(l, corpus, term) == []
    ensures forall d: nat :: d < |corpus| ==> term !in DocTokens(l, corpus[d]) && TermScore(l, corpus, term, d) == 0.0
  {
    PostedDocs(l, corpus, term);
  }

  // ----- the sum over the query -----

  lemma {:induction false} NoTokenNoScore(l: Language, corpus: seq<Entry>, query: seq<string>, doc: nat)
    requires doc < |corpus| && !SharesToken(l, corpus[doc], query)
    ensures Bm25(l, corpus, query, doc) == 0.0
  {
    if query != [] {
      var n := |query| - 1;
      assert query[n] in query;
      NoTokenNoScore(l, corpus, query[..n], doc);
    }
  }

  lemma SharesOneMore(l: Language, e: Entry, query: seq<string>, t: string)
    ensures SharesToken(l, e, query + [t]) <==> SharesToken(l, e, query) || t in DocTokens(l, e)
  {
    hide DocTokens;
    if SharesToken(l, e, query) {
      var u :| u in query && u in DocTokens(l, e);
      assert u in query + [t];
    }
    assert t in query + [t];
  }

  /** The scores after the first query tokens: the records that share one, with their sums. */
  ghost predicate ScoredBy(l: Language, corpus: seq<Entry>, query: seq<string>, bm25: map<nat, real>) {
    && (forall d: nat :: d in bm25 <==> d < |corpus| && SharesToken(l, corpus[d], query))
    && (forall d: nat :: d in bm25 && d < |corpus| ==> bm25[d] == Bm25(l, corpus, query, d))
  }

  lemma ScoredOneMore(l: Language, corpus: seq<Entry>, query: seq<string>, t: string,
                      before: map<nat, real>, after: map<nat, real>)
    requires ScoredBy(l, corpus, query, before)
    requires forall d: nat :: d in after <==> d in before || (d < |corpus| && t in DocTokens(l, corpus[d]))
    requires forall d: nat :: d in after && d < |corpus| ==>
               after[d] == At(before, d, 0.0) + TermScore(l, corpus, t, d)
    ensures ScoredBy(l, corpus, query + [t], after)
  {
    hide DocTokens, TermScore;
    assert (query + [t])[..|query|] == query;
    forall d: nat | d < |corpus|
      ensures d in after <==> SharesToken(l, corpus[d], query + [t])
      ensures d in after ==> after[d] == Bm25(l, corpus, query + [t], d)
    {
      SharesOneMore(l, corpus[d], query, t);
      if d !in before {
        NoTokenNoScore(l, corpus, query, d);
      }
    }
  }

  method ScoreTokens(l: Language, e: Engine, tokens: seq<string>, ghost corpus: seq<Entry>) returns (bm25: map<nat, real>)
    requires IndexOf(l, e, corpus)
    ensures ScoredBy(l, corpus, tokens, bm25)
  {
    hide IndexOf, DocTokens, TermScore;
    bm25 := map[];
    for i := 0 to |tokens|
      invariant ScoredBy(l, corpus, tokens[..i], bm25)
    {
      ghost var before := bm25;
      bm25 := AddTerm(l, e, bm25, tokens[i], corpus);
      ScoredOneMore(l, corpus, tokens[..i], tokens[i], before, bm25);
      assert tokens[..i] + [tokens[i]] == tokens[..i + 1];
    }
    assert tokens[..|tokens|] == tokens;
  }

  // ----- trigram overlap -----

  ghost predicate OverlapsAre(l: Language, corpus: seq<Entry>, grams: seq<string>, overlap: map<nat, nat>) {
    && (forall d: nat :: d in overlap ==> d < |corpus|)
    && (forall d: nat :: d < |corpus| ==> At(overlap, d, 0) == Overlap(l, corpus[d], grams))
  }

  method AddDocs(overlap: map<nat, nat>, docs: seq<nat>) returns (overlap': map<nat, nat>)
    requires StrictlyIncreasing(docs)
    ensures forall d: nat :: d in overlap' <==> d in overlap || d in docs
    ensures forall d: nat :: At(overlap', d, 0) == At(overlap, d, 0) + if d in docs then 1 else 0
  {
    overlap' := overlap;
    for j := 0 to |docs|
      invariant forall d: nat :: d in overlap' <==> d in overlap || d in docs[..j]
      invariant forall d: nat :: At(overlap', d, 0) == At(overlap, d, 0) + if d in docs[..j] then 1 else 0
    {
      assert docs[j] !in docs[..j];
      overlap' := overlap'[docs[j] := At(overlap', docs[j], 0) + 1];
      assert docs[..j + 1] == docs[..j] + [docs[j]];
    }
    assert docs[..|docs|] == docs;
  }

  lemma OverlapOneMore(l: Language, corpus: seq<Entry>, grams: seq<string>, i: nat)
    requires i < |grams|
    ensures forall d: nat :: d < |corpus| ==>
      Overlap(l, corpus[d], grams[..i + 1]) == Overlap(l, corpus[d], grams[..i]) + if HasGram(l, corpus[d], grams[i]) then 1 else 0
  {
    hide HasGram;
    assert grams[..i + 1][..i] == grams[..i];
  }

  method CountOverlap(l: Language, e: Engine, grams: seq<string>, ghost corpus: seq<Entry>)
    returns (overlap: map<nat, nat>)
    requires IndexOf(l, e, corpus)
    ensures OverlapsAre(l, corpus, grams, overlap)
  {
    hide IndexOf, HasGram, Overlap, OverlapsAre;
    overlap := map[];
    NothingOverlaps(l, corpus);
    for i := 0 to |grams|
      invariant OverlapsAre(l, corpus, grams[..i], overlap)
    {
      ghost var before := overlap;
      GramLookup(l, e, corpus, grams[i]);
      var docs := Lookup(e.trigram, grams[i]);
      overlap := AddDocs(overlap, docs);
      OverlapsGrow(l, corpus, grams, i, docs, before, overlap);
    }
    assert grams[..|grams|] == grams;
  }

  lemma GramLookup(l: Language, e: Engine, corpus: seq<Entry>, gram: string)
    requires IndexOf(l, e, corpus)
    ensures StrictlyIncreasing(Lookup(e.trigram, gram))
    ensures forall d: nat :: d in Lookup(e.trigram, gram) <==> d < |corpus| && HasGram(l, corpus[d], gram)
  {
    hide HasGram;
  }

  lemma NothingOverlaps(l: Language, corpus: seq<Entry>)
    ensures OverlapsAre(l, corpus, [], map[])
  {
  }

  lemma OverlapsGrow(l: Language, corpus: seq<Entry>, grams: seq<string>, i: nat, docs: seq<nat>,
                     before: map<nat, nat>, after: map<nat, nat>)
    requires i < |grams| && OverlapsAre(l, corpus, grams[..i], before)
    requires forall d: nat :: d in docs <==> d < |corpus| && HasGram(l, corpus[d], grams[i])
    requires forall d: nat :: d in after <==> d in before || d in docs
    requires forall d: nat :: At(after, d, 0) == At(before, d, 0) + if d in docs then 1 else 0
    ensures OverlapsAre(l, corpus, grams[..i + 1], after)
  {
    hide HasGram, Overlap;
    OverlapOneMore(l, corpus, grams, i);
  }

  /** Records with enough overlap join with score zero, the overlaps taken in any order. */
  method Promote(bm25: map<nat, real>, overlap: map<nat, nat>, needed: nat) returns (bm25': map<nat, real>)
    ensures forall d: nat :: d in bm25' <==> d in bm25 || (d in overlap && overlap[d] >= needed)
    ensures forall d: nat :: d in bm25' ==> bm25'[d] == At(bm25, d, 0.0)
  {
    bm25' := bm25;
    var rest := overlap.Keys;
    while rest != {}
      invariant rest <= overlap.Keys
      invariant forall d: nat :: d in bm25' <==> d in bm25 || (d in overlap && d !in rest && overlap[d] >= needed)
      invariant forall d: nat :: d in bm25' ==> bm25'[d] == At(bm25, d, 0.0)
      decreases |rest|
    {
      var d :| d in rest;
      if overlap[d] >= needed {
        bm25' := bm25'[d := At(bm25', d, 0.0)];
      }
      rest := rest - {d};
    }
  }

  lemma NeededIsPositive(grams: seq<string>)
    ensures Needed(grams) >= 1
  {
  }

  /** The candidates of a query: exactly those of the full scan, each with its full-scan score. */
  method Collect(l: Language, e: Engine, q: string, fuzzy: bool, ghost corpus: seq<Entry>)
    returns (bm25: map<nat, real>)
    requires IndexOf(l, e, corpus)
    ensures bm25 == FullScan(l, corpus, q, fuzzy)
  {
    hide IndexOf, Tokenize, Trigrams, SharesToken, Overlap, Needed;
    var tokens := Tokenize(l, q);
    bm25 := ScoreTokens(l, e, tokens, corpus);
    ghost var scored := bm25;
    var grams := Trigrams(l, q);
    NeededIsPositive(grams);
    NoOverlapWithoutGrams(l, corpus);
    if fuzzy && grams != [] {
      var overlap := CountOverlap(l, e, grams, corpus);
      bm25 := Promote(bm25, overlap, Needed(grams));
    }
    forall d: nat
      ensures d in bm25 <==> d in FullScan(l, corpus, q, fuzzy)
      ensures d in bm25 ==> bm25[d] == FullScan(l, corpus, q, fuzzy)[d]
    {
      if d < |corpus| && d !in scored {
        NoTokenNoScore(l, corpus, tokens, d);
      }
    }
  }

  lemma NoOverlapWithoutGrams(l: Language, corpus: seq<Entry>)
    ensures forall d: nat :: d < |corpus| ==> Overlap(l, corpus[d], []) == 0
  {
  }
}

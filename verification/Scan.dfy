/** Candidates and BM25 scores by a full scan of the corpus, and the index walk that finds the same ones. */
module Scan {
  import opened Text
  import opened Corpus
  import opened Index

  const K1 := 1.2
  const B := 0.75
  const EPSILON := 0.00000011920928955078125

  function Max(a: real, b: real): real {
    if a >= b then a else b
  }

  function Idf(l: Language, n: nat, df: nat): real {
    l.ln((n as real - df as real + 0.5) / (df as real + 0.5) + 1.0)
  }

  function Denominator(tf: nat, docLen: nat, avg: real): real {
    Max(tf as real + K1 * (1.0 - B + B * docLen as real / Max(avg, 1.0)), EPSILON)
  }

  function Contribution(idf: real, tf: nat, docLen: nat, avg: real): real {
    idf * (tf as real * (K1 + 1.0)) / Denominator(tf, docLen, avg)
  }

  // ----- the full scan -----

  function DocLens(l: Language, corpus: seq<Entry>): (lens: seq<nat>)
    ensures |lens| == |corpus|
  {
    seq(|corpus|, d requires 0 <= d < |corpus| => |DocTokens(l, corpus[d])|)
  }

  /** The number of records that contain the term. */
  function Df(l: Language, corpus: seq<Entry>, term: string): (df: nat)
    ensures df <= |corpus|
  {
    if corpus == [] then 0
    else Df(l, corpus[..|corpus| - 1], term) + if term in DocTokens(l, corpus[|corpus| - 1]) then 1 else 0
  }

  function TermScore(l: Language, corpus: seq<Entry>, term: string, doc: nat): real
    requires doc < |corpus|
  {
    var tokens := DocTokens(l, corpus[doc]);
    if term !in tokens then 0.0
    else Contribution(Idf(l, |corpus|, Df(l, corpus, term)), multiset(tokens)[term], |tokens|,
                      AverageLength(DocLens(l, corpus)))
  }

  /** Every occurrence of a token in the query counts. */
  function Bm25(l: Language, corpus: seq<Entry>, query: seq<string>, doc: nat): real
    requires doc < |corpus|
  {
    if query == [] then 0.0
    else Bm25(l, corpus, query[..|query| - 1], doc) + TermScore(l, corpus, query[|query| - 1], doc)
  }

  predicate SharesToken(l: Language, e: Entry, query: seq<string>) {
    exists t :: t in query && t in DocTokens(l, e)
  }

  function Overlap(l: Language, e: Entry, grams: seq<string>): (k: nat)
    ensures k <= |grams|
  {
    if grams == [] then 0
    else Overlap(l, e, grams[..|grams| - 1]) + if HasGram(l, e, grams[|grams| - 1]) then 1 else 0
  }

  function Needed(grams: seq<string>): nat {
    if |grams| / 2 < 1 then 1 else |grams| / 2
  }

  predicate IsCandidate(l: Language, e: Entry, q: string, fuzzy: bool) {
    SharesToken(l, e, Tokenize(l, q)) || (fuzzy && Overlap(l, e, Trigrams(l, q)) >= Needed(Trigrams(l, q)))
  }

  function FullScan(l: Language, corpus: seq<Entry>, q: string, fuzzy: bool): map<nat, real> {
    map d: nat | d < |corpus| && IsCandidate(l, corpus[d], q, fuzzy) :: Bm25(l, corpus, Tokenize(l, q), d)
  }

  lemma Scanned(l: Language, corpus: seq<Entry>, q: string, fuzzy: bool, doc: nat)
    requires doc < |corpus| && IsCandidate(l, corpus[doc], q, fuzzy)
    ensures doc in FullScan(l, corpus, q, fuzzy)
    ensures FullScan(l, corpus, q, fuzzy)[doc] == Bm25(l, corpus, Tokenize(l, q), doc)
  {
    hide IsCandidate, Bm25, Tokenize;
  }

  // ----- what a posting list is -----

  ghost predicate PostingFor(l: Language, corpus: seq<Entry>, term: string, p: Posting) {
    p.doc < |corpus| && term in DocTokens(l, corpus[p.doc]) && p.tf == multiset(DocTokens(l, corpus[p.doc]))[term]
  }

  lemma {:induction false} PostingsExact(l: Language, corpus: seq<Entry>, term: string)
    ensures forall p :: p in PostingsOf(l, corpus, term) ==> PostingFor(l, corpus, term, p)
    ensures |PostingsOf(l, corpus, term)| == Df(l, corpus, term)
  {
    if corpus != [] {
      var n := |corpus| - 1;
      PostingsExact(l, corpus[..n], term);
      hide PostingsOf, Df, DocTokens, PostingOf, PostingFor;
      PostingsStep(l, corpus, term);
      PostingOfIsExact(l, corpus, term);
      forall p | p in PostingsOf(l, corpus, term)
        ensures PostingFor(l, corpus, term, p)
      {
        if p in PostingsOf(l, corpus[..n], term) {
          PostingForLonger(l, corpus, term, p);
        }
      }
    }
  }

  lemma PostingOfIsExact(l: Language, corpus: seq<Entry>, term: string)
    requires corpus != []
    ensures var n := |corpus| - 1;
            |PostingOf(l, corpus[n], n, term)| == (if term in DocTokens(l, corpus[n]) then 1 else 0)
            && forall p :: p in PostingOf(l, corpus[n], n, term) ==> PostingFor(l, corpus, term, p)
  {
    hide DocTokens;
    var tokens := DocTokens(l, corpus[|corpus| - 1]);
    assert term in tokens <==> term in multiset(tokens);
  }

  lemma PostingForLonger(l: Language, corpus: seq<Entry>, term: string, p: Posting)
    requires corpus != [] && PostingFor(l, corpus[..|corpus| - 1], term, p)
    ensures PostingFor(l, corpus, term, p)
  {
  }

  ghost predicate HasPosting(ps: seq<Posting>, doc: nat) {
    exists i :: 0 <= i < |ps| && ps[i].doc == doc
  }

  lemma {:induction false} PostingsComplete(l: Language, corpus: seq<Entry>, term: string, doc: nat)
    requires doc < |corpus| && term in DocTokens(l, corpus[doc])
    ensures HasPosting(PostingsOf(l, corpus, term), doc)
  {
    var n := |corpus| - 1;
    hide DocTokens, PostingsOf, Df;
    PostingsStep(l, corpus, term);
    var before, ps := PostingsOf(l, corpus[..n], term), PostingsOf(l, corpus, term);
    if doc < n {
      PostingsComplete(l, corpus[..n], term, doc);
      var i :| 0 <= i < |before| && before[i].doc == doc;
      assert ps[i].doc == doc;
    } else {
      assert term in multiset(DocTokens(l, corpus[n]));
      assert ps[|before|].doc == doc;
    }
  }

  /** In range, strictly increasing, exact counts, nothing missing; and its length is the document frequency. */
  lemma PostingLists(l: Language, corpus: seq<Entry>, term: string)
    ensures var ps := PostingsOf(l, corpus, term);
            (forall i :: 0 <= i < |ps| ==> PostingFor(l, corpus, term, ps[i]))
            && (forall i, j :: 0 <= i < j < |ps| ==> ps[i].doc < ps[j].doc)
            && (forall d: nat :: d < |corpus| && term in DocTokens(l, corpus[d]) ==> HasPosting(ps, d))
            && |ps| == Df(l, corpus, term)
  {
    hide DocTokens, PostingsOf, Df, HasPosting, PostingFor;
    PostingsExact(l, corpus, term);
    PostingsInOrder(l, corpus, term);
    forall d: nat | d < |corpus| && term in DocTokens(l, corpus[d])
      ensures HasPosting(PostingsOf(l, corpus, term), d)
    {
      PostingsComplete(l, corpus, term, d);
    }
  }

  lemma PostingsStep(l: Language, corpus: seq<Entry>, term: string)
    requires corpus != []
    ensures var n := |corpus| - 1;
            PostingsOf(l, corpus, term) == PostingsOf(l, corpus[..n], term) + PostingOf(l, corpus[n], n, term)
            && Df(l, corpus, term) == Df(l, corpus[..n], term) + if term in DocTokens(l, corpus[n]) then 1 else 0
  {
  }

  ghost function Pick(s: set<string>): (t: string)
    requires s != {}
    ensures t in s
  {
    var t :| t in s;
    t
  }

  /** The frequency that the inverted lists hold for a record, summed over any terms that include all of its tokens. */
  ghost function PostedFrequency(l: Language, corpus: seq<Entry>, terms: set<string>, doc: nat): nat {
    if terms == {} then 0
    else
      var t := Pick(terms);
      FrequencyIn(PostingsOf(l, corpus, t), doc) + PostedFrequency(l, corpus, terms - {t}, doc)
  }

  function FrequencyIn(ps: seq<Posting>, doc: nat): nat {
    if ps == [] then 0 else (if ps[0].doc == doc then ps[0].tf else 0) + FrequencyIn(ps[1..], doc)
  }

  lemma {:induction false} FrequencyElsewhere(ps: seq<Posting>, doc: nat)
    requires forall i :: 0 <= i < |ps| ==> ps[i].doc != doc
    ensures FrequencyIn(ps, doc) == 0
  {
    if ps != [] {
      FrequencyElsewhere(ps[1..], doc);
    }
  }

  lemma {:induction false} FrequencyOnce(ps: seq<Posting>, doc: nat, i: nat)
    requires i < |ps| && ps[i].doc == doc
    requires forall j, k :: 0 <= j < k < |ps| ==> ps[j].doc < ps[k].doc
    ensures FrequencyIn(ps, doc) == ps[i].tf
  {
    if i == 0 {
      FrequencyElsewhere(ps[1..], doc);
    } else {
      FrequencyOnce(ps[1..], doc, i - 1);
    }
  }

  lemma PostedTermFrequency(l: Language, corpus: seq<Entry>, term: string, doc: nat)
    requires doc < |corpus|
    ensures FrequencyIn(PostingsOf(l, corpus, term), doc) == multiset(DocTokens(l, corpus[doc]))[term]
  {
    hide PostingsOf, DocTokens, Df;
    PostingLists(l, corpus, term);
    var ps := PostingsOf(l, corpus, term);
    if term in DocTokens(l, corpus[doc]) {
      var i :| 0 <= i < |ps| && ps[i].doc == doc;
      FrequencyOnce(ps, doc, i);
    } else {
      FrequencyElsewhere(ps, doc);
    }
  }

  ghost function CountOver(terms: set<string>, tokens: multiset<string>): nat {
    if terms == {} then 0
    else
      var t := Pick(terms);
      tokens[t] + CountOver(terms - {t}, tokens)
  }

  lemma {:induction false} CountEverything(terms: set<string>, tokens: multiset<string>)
    requires forall t :: t in tokens ==> t in terms
    ensures CountOver(terms, tokens) == |tokens|
    decreases |terms|
  {
    if terms == {} {
      assert tokens == multiset{};
    } else {
      var t := Pick(terms);
      var rest := tokens[t := 0];
      CountEverything(terms - {t}, rest);
      SameCounts(terms - {t}, tokens, rest);
      assert |tokens| == tokens[t] + |rest|;
    }
  }

  lemma {:induction false} SameCounts(terms: set<string>, a: multiset<string>, b: multiset<string>)
    requires forall t :: t in terms ==> a[t] == b[t]
    ensures CountOver(terms, a) == CountOver(terms, b)
    decreases |terms|
  {
    if terms != {} {
      SameCounts(terms - {Pick(terms)}, a, b);
    }
  }

  lemma {:induction false} PostedCounts(l: Language, corpus: seq<Entry>, terms: set<string>, doc: nat)
    requires doc < |corpus|
    ensures PostedFrequency(l, corpus, terms, doc) == CountOver(terms, multiset(DocTokens(l, corpus[doc])))
    decreases |terms|
  {
    if terms != {} {
      hide PostingsOf, FrequencyIn, DocTokens;
      var t := Pick(terms);
      PostedTermFrequency(l, corpus, t, doc);
      PostedCounts(l, corpus, terms - {t}, doc);
    }
  }

  /** Conservation: the inverted lists hold every token of a record exactly once, as its recorded length says. */
  lemma PostedLength(l: Language, e: Engine, corpus: seq<Entry>, terms: set<string>, doc: nat)
    requires IndexOf(l, e, corpus) && doc < |corpus|
    requires forall t :: t in DocTokens(l, corpus[doc]) ==> t in terms
    ensures PostedFrequency(l, corpus, terms, doc) == e.docLens[doc]
  {
    var tokens := DocTokens(l, corpus[doc]);
    PostedCounts(l, corpus, terms, doc);
    assert forall t :: t in multiset(tokens) ==> t in tokens;
    CountEverything(terms, multiset(tokens));
  }
}

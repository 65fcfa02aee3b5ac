/** What the numbers of the full scan and of the ranking mean, in terms of the records alone. */
module Scoring {
  import opened Wrappers
  import opened Sorting
  import opened Text
  import opened Corpus
  import opened Index
  import opened Scan
  import opened Ranking

  // ----- tokens of a record -----

  /** How often a token occurs in some texts. */
  function TokenCount(l: Language, texts: seq<string>, t: string): nat {
    if texts == [] then 0 else multiset(Tokenize(l, texts[0]))[t] + TokenCount(l, texts[1..], t)
  }

  function TokenTotal(l: Language, texts: seq<string>): nat {
    if texts == [] then 0 else |Tokenize(l, texts[0])| + TokenTotal(l, texts[1..])
  }

  lemma {:induction false} CountsSplit(l: Language, a: seq<string>, b: seq<string>, t: string)
    ensures TokenCount(l, a + b, t) == TokenCount(l, a, t) + TokenCount(l, b, t)
    ensures TokenTotal(l, a + b) == TokenTotal(l, a) + TokenTotal(l, b)
  {
    hide Tokenize;
    if a == [] {
      assert a + b == b;
    } else {
      assert (a + b)[1..] == a[1..] + b;
      CountsSplit(l, a[1..], b, t);
    }
  }

  lemma {:induction false} TokensCounted(l: Language, fields: seq<string>, t: string)
    ensures multiset(TokensOf(l, fields))[t] == TokenCount(l, fields, t)
    ensures |TokensOf(l, fields)| == TokenTotal(l, fields)
  {
    hide Tokenize;
    if fields != [] {
      var n := |fields| - 1;
      TokensCounted(l, fields[..n], t);
      CountsSplit(l, fields[..n], [fields[n]], t);
      assert fields == fields[..n] + [fields[n]] && [fields[n]][1..] == [];
    }
  }

  /** The tokens of a record are those of its name, aliases, addresses, nationalities and programs, with repeats. */
  lemma RecordTokens(l: Language, e: Entry, t: string)
    ensures multiset(DocTokens(l, e))[t]
            == multiset(Tokenize(l, e.name))[t] + TokenCount(l, e.aliases, t) + TokenCount(l, e.addresses, t)
               + TokenCount(l, e.nationalities, t) + TokenCount(l, e.programs, t)
    ensures |DocTokens(l, e)|
            == |Tokenize(l, e.name)| + TokenTotal(l, e.aliases) + TokenTotal(l, e.addresses)
               + TokenTotal(l, e.nationalities) + TokenTotal(l, e.programs)
  {
    hide Tokenize, TokensOf;
    TokensCounted(l, Fields(e), t);
    CountsSplit(l, [e.name], e.aliases, t);
    CountsSplit(l, [e.name] + e.aliases, e.addresses, t);
    CountsSplit(l, [e.name] + e.aliases + e.addresses, e.nationalities, t);
    CountsSplit(l, [e.name] + e.aliases + e.addresses + e.nationalities, e.programs, t);
    assert [e.name][1..] == [];
  }

  function RecordsWith(l: Language, corpus: seq<Entry>, t: string): set<nat> {
    set d: nat | d < |corpus| && t in DocTokens(l, corpus[d])
  }

  /** The document frequency is the number of records with the token. */
  lemma {:induction false} FrequencyCounts(l: Language, corpus: seq<Entry>, t: string)
    ensures Df(l, corpus, t) == |RecordsWith(l, corpus, t)|
  {
    hide DocTokens;
    if corpus != [] {
      var n := |corpus| - 1;
      FrequencyCounts(l, corpus[..n], t);
      assert RecordsWith(l, corpus, t)
          == RecordsWith(l, corpus[..n], t) + if t in DocTokens(l, corpus[n]) then {n} else {};
    } else {
      assert RecordsWith(l, corpus, t) == {};
    }
  }

  // ----- the score of a token -----

  lemma RareArgument(n: nat, df: nat)
    requires df <= n
    ensures (n as real - df as real + 0.5) / (df as real + 0.5) + 1.0 == (n as real + 1.0) / (df as real + 0.5)
  {
    var d := df as real + 0.5;
    var q := (n as real - df as real + 0.5) / d;
    assert q * d == n as real - df as real + 0.5;
    assert (q + 1.0) * d == n as real + 1.0;
    QuotientIs(q + 1.0, n as real + 1.0, d);
  }

  lemma QuotientIs(q: real, a: real, d: real)
    requires d > 0.0 && q * d == a
    ensures a / d == q
  {
  }

  /** The inverse document frequency is ln((n + 1) / (df + 0.5)), so a rarer token never weighs less. */
  lemma RarerWeighsMore(l: Language, n: nat, rare: nat, common: nat)
    requires Lawful(l) && rare <= common <= n
    ensures Idf(l, n, rare) == l.ln((n as real + 1.0) / (rare as real + 0.5))
    ensures Idf(l, n, rare) >= Idf(l, n, common)
  {
    RareArgument(n, rare);
    RareArgument(n, common);
    LargerQuotient(n as real + 1.0, rare as real + 0.5, common as real + 0.5);
  }

  lemma LargerQuotient(a: real, c: real, d: real)
    requires a > 0.0 && 0.0 < c <= d
    ensures a / c >= a / d > 0.0
  {
    var p, q := a / c, a / d;
    assert p * c == a && q * d == a;
    assert q > 0.0;
    if p < q {
      assert p * c < q * c <= q * d;
    }
  }

  /** The number of tokens of all records together. */
  function AllTokens(l: Language, corpus: seq<Entry>): nat {
    if corpus == [] then 0 else |DocTokens(l, corpus[0])| + AllTokens(l, corpus[1..])
  }

  lemma {:induction false} OneRecordMore(l: Language, corpus: seq<Entry>, e: Entry)
    ensures AllTokens(l, corpus + [e]) == AllTokens(l, corpus) + |DocTokens(l, e)|
  {
    hide DocTokens;
    if corpus == [] {
      assert [] + [e] == [e] && [e][1..] == [];
    } else {
      assert (corpus + [e])[1..] == corpus[1..] + [e];
      OneRecordMore(l, corpus[1..], e);
    }
  }

  lemma {:induction false} LengthsAddUp(l: Language, corpus: seq<Entry>)
    ensures TotalLength(DocLens(l, corpus)) == AllTokens(l, corpus)
  {
    hide DocTokens;
    if corpus != [] {
      var n := |corpus| - 1;
      LengthsAddUp(l, corpus[..n]);
      OneRecordMore(l, corpus[..n], corpus[n]);
      assert corpus == corpus[..n] + [corpus[n]];
      assert DocLens(l, corpus)[..n] == DocLens(l, corpus[..n]);
    }
  }

  /** The mean number of tokens of a record. */
  lemma MeanLength(l: Language, corpus: seq<Entry>)
    requires corpus != []
    ensures AverageLength(DocLens(l, corpus)) * |corpus| as real == AllTokens(l, corpus) as real
  {
    hide DocTokens;
    LengthsAddUp(l, corpus);
  }

  /**
    The score of a token in a record with `tf` of them among its `len` tokens: with k1 = 1.2 and b = 0.75, its inverse
    document frequency times 2.2 tf, divided by tf + 0.3 + 0.9 len / max(mean, 1). A record without it scores nothing.
   */
  lemma TokenScore(l: Language, corpus: seq<Entry>, t: string, d: nat)
    requires Lawful(l) && d < |corpus|
    ensures var tf := multiset(DocTokens(l, corpus[d]))[t] as real;
            var len := |DocTokens(l, corpus[d])| as real;
            var mean := AverageLength(DocLens(l, corpus));
            var weight := l.ln((|corpus| as real + 1.0) / (|RecordsWith(l, corpus, t)| as real + 0.5));
            TermScore(l, corpus, t, d) * (tf + 0.3 + 0.9 * (len / (if mean > 1.0 then mean else 1.0))) == weight * 2.2 * tf
  {
    hide DocTokens, Df, DocLens, AverageLength;
    FrequencyCounts(l, corpus, t);
    RarerWeighsMore(l, |corpus|, Df(l, corpus, t), |corpus|);
    var tokens := DocTokens(l, corpus[d]);
    if t in tokens {
      ContributionIs(Idf(l, |corpus|, Df(l, corpus, t)), multiset(tokens)[t], |tokens|, AverageLength(DocLens(l, corpus)));
    }
  }

  lemma ContributionIs(idf: real, tf: nat, len: nat, mean: real)
    requires tf >= 1
    ensures Contribution(idf, tf, len, mean)
            * (tf as real + 0.3 + 0.9 * (len as real / (if mean > 1.0 then mean else 1.0))) == idf * 2.2 * tf as real
  {
    var m := if mean > 1.0 then mean else 1.0;
    var r := len as real / m;
    assert r * m == len as real;
    assert r >= 0.0;
    assert 0.75 * len as real / m == 0.75 * r by {
      QuotientIs(0.75 * r, 0.75 * len as real, m);
    }
    var divisor := tf as real + 0.3 + 0.9 * r;
    assert Denominator(tf, len, mean) == divisor;
    assert idf * (tf as real * 2.2) == idf * 2.2 * tf as real;
    assert idf * (tf as real * 2.2) / divisor * divisor == idf * (tf as real * 2.2);
  }

  /** The score of a query is the sum of those of its tokens, repeats counted. */
  lemma {:induction false} ScoresAdd(l: Language, corpus: seq<Entry>, a: seq<string>, b: seq<string>, d: nat)
    requires d < |corpus|
    ensures Bm25(l, corpus, a + b, d) == Bm25(l, corpus, a, d) + Bm25(l, corpus, b, d)
    ensures Bm25(l, corpus, [], d) == 0.0
    ensures |a| == 1 ==> Bm25(l, corpus, a, d) == TermScore(l, corpus, a[0], d)
  {
    hide TermScore;
    if b == [] {
      assert a + b == a;
    } else {
      var n := |b| - 1;
      assert (a + b)[..|a| + n] == a + b[..n];
      ScoresAdd(l, corpus, a, b[..n], d);
    }
    assert |a| == 1 ==> a[..0] == [];
  }

  // ----- which records are candidates -----

  /** The trigram at a position of the query occurs in the name or an alias of the record. */
  ghost predicate SharedAt(l: Language, e: Entry, q: string, k: nat)
    requires k < |Trigrams(l, q)|
  {
    exists a :: (a == e.name || a in e.aliases) && Trigrams(l, q)[k] in Trigrams(l, a)
  }

  ghost function SharedPositions(l: Language, e: Entry, q: string): set<nat> {
    set k: nat | k < |Trigrams(l, q)| && SharedAt(l, e, q, k)
  }

  lemma GramOfNames(l: Language, e: Entry, g: string)
    requires Lawful(l)
    ensures HasGram(l, e, g) <==> exists a :: (a == e.name || a in e.aliases) && g in Trigrams(l, a)
  {
    hide Trigrams, Lawful, Surfaces;
    if s :| s in Surfaces(l, e) && g in Trigrams(l, s) {
      SurfacesAreNames(l, e, s);
      var a :| (a == e.name || a in e.aliases) && s == l.normalize(a);
      NormalizedTwice(l, a);
    }
    if a :| (a == e.name || a in e.aliases) && g in Trigrams(l, a) {
      SurfacesAreNames(l, e, l.normalize(a));
      NormalizedTwice(l, a);
      assert l.normalize(a) in Surfaces(l, e);
    }
  }

  lemma {:induction false} OverlapCounts(l: Language, e: Entry, grams: seq<string>)
    ensures Overlap(l, e, grams) == |set k: nat | k < |grams| && HasGram(l, e, grams[k])|
  {
    hide HasGram;
    var here := set k: nat | k < |grams| && HasGram(l, e, grams[k]);
    if grams != [] {
      var n := |grams| - 1;
      OverlapCounts(l, e, grams[..n]);
      var before := set k: nat | k < n && HasGram(l, e, grams[..n][k]);
      assert here == before + if HasGram(l, e, grams[n]) then {n} else {};
    } else {
      assert here == {};
    }
  }

  /**
    A record without a common token is a fuzzy candidate if and only if at least one, and at least half, rounded down,
    of the positions of the query have a trigram that occurs in its name or an alias.
   */
  lemma FuzzyThreshold(l: Language, e: Entry, q: string)
    requires Lawful(l)
    ensures IsCandidate(l, e, q, true)
            <==> (exists t :: t in Tokenize(l, q) && t in DocTokens(l, e))
                 || var k := |SharedPositions(l, e, q)|; k >= 1 && 2 * k + 1 >= |Trigrams(l, q)|
    ensures IsCandidate(l, e, q, false) <==> exists t :: t in Tokenize(l, q) && t in DocTokens(l, e)
  {
    hide Trigrams, Tokenize, Lawful, DocTokens, HasGram;
    var grams := Trigrams(l, q);
    OverlapCounts(l, e, grams);
    forall k: nat | k < |grams|
      ensures HasGram(l, e, grams[k]) <==> SharedAt(l, e, q, k)
    {
      GramOfNames(l, e, grams[k]);
    }
    assert SharedPositions(l, e, q) == set k: nat | k < |grams| && HasGram(l, e, grams[k]);
  }

  // ----- the strength of a record -----

  /** An exact match has a name or alias with the normal form of the query, which is not empty. */
  lemma ExactMeansSameName(l: Language, e: Entry, q: string)
    ensures IsExact(l, e, q)
            <==> l.normalize(q) != [] && exists a :: (a == e.name || a in e.aliases) && l.normalize(a) == l.normalize(q)
  {
    SurfacesAreNames(l, e, l.normalize(q));
  }

  lemma {:induction false} BestOfSurfaces(l: Language, surfaces: seq<string>, norm: string)
    requires Lawful(l)
    ensures forall s :: s in surfaces ==> l.similarity(s, norm) <= BestSimilarity(l, surfaces, norm)
    ensures surfaces != [] ==> exists s :: s in surfaces && l.similarity(s, norm) == BestSimilarity(l, surfaces, norm)
    ensures surfaces == [] ==> BestSimilarity(l, surfaces, norm) == 0.0
  {
    if surfaces != [] {
      var n := |surfaces| - 1;
      BestOfSurfaces(l, surfaces[..n], norm);
      assert surfaces == surfaces[..n] + [surfaces[n]];
      assert l.similarity(surfaces[n], norm) >= 0.0;
      assert surfaces[n] in surfaces;
    }
  }

  /** The strength of a record is 1 for an exact match, else the highest similarity of its name and aliases. */
  lemma StrengthIsBest(l: Language, e: Entry, q: string)
    requires Lawful(l)
    ensures IsExact(l, e, q) ==> Strength(l, e, q) == 1.0
    ensures !IsExact(l, e, q) ==>
      (forall a :: a == e.name || a in e.aliases ==> l.similarity(l.normalize(a), l.normalize(q)) <= Strength(l, e, q))
      && exists a :: (a == e.name || a in e.aliases) && l.similarity(l.normalize(a), l.normalize(q)) == Strength(l, e, q)
  {
    hide IsExact, Surfaces;
    var norm := l.normalize(q);
    SurfacesNotEmpty(l, e);
    BestOfSurfaces(l, Surfaces(l, e), norm);
    if !IsExact(l, e, q) {
      forall a | a == e.name || a in e.aliases
        ensures l.similarity(l.normalize(a), norm) <= Strength(l, e, q)
      {
        SurfacesAreNames(l, e, l.normalize(a));
      }
      var s :| s in Surfaces(l, e) && l.similarity(s, norm) == Strength(l, e, q);
      SurfacesAreNames(l, e, s);
    }
  }

  lemma SurfacesNotEmpty(l: Language, e: Entry)
    ensures Surfaces(l, e) != []
  {
  }

  /** The ranking score: 0.7 of the strength and 0.06 of the BM25 score, which counts up to 5. */
  lemma BlendedScore(strength: real, bm25: real)
    ensures bm25 <= 5.0 ==> Blend(strength, bm25) == 0.7 * strength + 0.06 * bm25
    ensures bm25 >= 5.0 ==> Blend(strength, bm25) == 0.7 * strength + 0.3
  {
  }

  // ----- the shortlist and the filters -----

  /** The shortlist is 200 of the candidates, or all of them, and no other candidate has a higher BM25 score. */
  lemma ShortlistIsBest(l: Language, corpus: seq<Entry>, params: Params, order: seq<Candidate>)
    requires Enumerates(order, FullScan(l, corpus, params.q, params.fuzzy))
    ensures |Shortlist(order)| == if |order| < 200 then |order| else 200
    ensures forall c, o :: c in Shortlist(order) && o in order && o !in Shortlist(order) ==> c.bm25 >= o.bm25
    ensures forall c :: c in Shortlist(order) ==> c in order
  {
    hide FullScan, StableSort, Enumerates;
    ShortlistFacts(l, corpus, params, order);
    SortElements(order, BestBm25First);
    SameElements(StableSort(order, BestBm25First), order);
    SortSorts(order, BestBm25First);
    PrefixIsBest(StableSort(order, BestBm25First), |Shortlist(order)|);
  }

  lemma PrefixIsBest(sorted: seq<Candidate>, n: nat)
    requires Sorted(sorted, BestBm25First) && n <= |sorted|
    ensures forall c, o :: c in sorted[..n] && o in sorted && o !in sorted[..n] ==> c.bm25 >= o.bm25
  {
    assert forall k :: 0 <= k < n ==> sorted[..n][k] == sorted[k];
    assert forall k :: 0 <= k < n ==> sorted[k] in sorted[..n];
    forall c, o | c in sorted[..n] && o in sorted && o !in sorted[..n]
      ensures c.bm25 >= o.bm25
    {
      var i :| 0 <= i < n && sorted[..n][i] == c;
      var j :| 0 <= j < |sorted| && sorted[j] == o;
      assert n <= j;
      assert BestBm25First(sorted[i], sorted[j]);
    }
  }

  /** A record passes the filters when its source is on the list of sources, if any, and its type on that of types. */
  lemma FiltersByLists(params: Params, e: Entry)
    ensures Accepts(params, e)
            <==> (params.sources == None || exists i :: 0 <= i < |params.sources.value| && params.sources.value[i] == e.sourceList)
                 && (params.entityTypes == None
                     || exists i :: 0 <= i < |params.entityTypes.value| && params.entityTypes.value[i] == e.entityType)
  {
  }

  /** The number of returned records: as many as pass the filters on the shortlist, up to the limit, and that is at least 1. */
  lemma ReturnedCount(l: Language, corpus: seq<Entry>, params: Params, order: seq<Candidate>)
    requires Enumerates(order, FullScan(l, corpus, params.q, params.fuzzy))
    ensures InRange(corpus, Shortlist(order))
    ensures var passed := |Filtered(l, corpus, params, order)|;
            |Returned(l, corpus, params, order)|
            == if params.limit == 0 then (if passed == 0 then 0 else 1) else if passed < params.limit then passed else params.limit
  {
    hide FullScan, Filtered, Returned, Enumerates, Shortlist;
    TopOfFiltered(l, corpus, params, order);
  }
}

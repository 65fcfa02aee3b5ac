/** Inputs on which an exact match of the corpus is not reported: the conditions proved elsewhere are needed. */
module Witnesses {
  import opened Wrappers
  import opened Sorting
  import opened Text
  import opened Corpus
  import opened Index
  import opened Scan
  import opened Ranking
  import opened Exact
  import opened Recall

  function Named(id: string, source: string, name: string): Entry {
    Entry(id, source, name, [], Unknown, [], [], [])
  }

  lemma NamedTokens(l: Language, id: string, source: string, name: string)
    ensures Surfaces(l, Named(id, source, name)) == [l.normalize(name)]
    ensures DocTokens(l, Named(id, source, name)) == Tokenize(l, name)
  {
    hide Tokenize;
    var e := Named(id, source, name);
    assert Fields(e) == [name];
    assert TokensOf(l, [name]) == TokensOf(l, []) + Tokenize(l, name);
    assert [e.name] + e.aliases == [name];
  }

  // ----- a filter that removes the remembered exact match -----

  lemma {:induction false} SameTokensSameScore(l: Language, corpus: seq<Entry>, query: seq<string>, a: nat, b: nat)
    requires a < |corpus| && b < |corpus| && DocTokens(l, corpus[a]) == DocTokens(l, corpus[b])
    ensures Bm25(l, corpus, query, a) == Bm25(l, corpus, query, b)
  {
    if query != [] {
      hide DocTokens, Contribution, Idf, Df;
      SameTokensSameScore(l, corpus, query[..|query| - 1], a, b);
    }
  }

  /** The same name on two source lists, searched with a filter for the second. */
  function TwoSources(name: string): seq<Entry> {
    [Named("1", "X", name), Named("2", "Y", name)]
  }

  function OnSecondSource(name: string): Params {
    Params(name, Some(["Y"]), None, true, 20)
  }

  lemma TwoCandidates(l: Language, name: string) returns (order: seq<Candidate>)
    requires Lawful(l) && l.normalize(name) != []
    ensures |order| == 2 && order[0].doc == 0 && order[1].doc == 1 && order[0].bm25 == order[1].bm25
    ensures Enumerates(order, FullScan(l, TwoSources(name), name, true))
    ensures forall d: nat :: d < 2 ==> IsExact(l, TwoSources(name)[d], name)
  {
    hide Tokenize, Trigrams, Overlap, Needed, SharesToken, Bm25, Lawful;
    var corpus := TwoSources(name);
    NamedTokens(l, "1", "X", name);
    NamedTokens(l, "2", "Y", name);
    forall d: nat | d < 2
      ensures IsExact(l, corpus[d], name) && IsCandidate(l, corpus[d], name, true)
    {
      ExactIsCandidate(l, corpus[d], name, true);
    }
    var scores := FullScan(l, corpus, name, true);
    SameTokensSameScore(l, corpus, Tokenize(l, name), 0, 1);
    assert 0 in scores && 1 in scores && scores[0] == scores[1];
    order := [Candidate(0, scores[0]), Candidate(1, scores[1])];
    forall c
      ensures c in order <==> c.doc in scores && scores[c.doc] == c.bm25
    {
      assert c.doc in scores ==> c.doc == 0 || c.doc == 1;
    }
  }

  /** For every name and language: an exact match is returned, and yet the flag is not set. */
  lemma FilterHidesExact(l: Language, name: string) returns (order: seq<Candidate>)
    requires Lawful(l) && l.normalize(name) != []
    ensures Enumerates(order, FullScan(l, TwoSources(name), name, true)) && InRange(TwoSources(name), Shortlist(order))
    ensures ReturnsExact(l, TwoSources(name), OnSecondSource(name), order)
    ensures !ExactFlag(l, TwoSources(name), OnSecondSource(name), order)
  {
    hide FullScan, IsExact, Lawful, Enumerates, ExactFlag, ReturnsExact, Strength, Blend;
    var corpus, params := TwoSources(name), OnSecondSource(name);
    order := TwoCandidates(l, name);
    SortedIsFixed(order, BestBm25First);
    hide StableSort;
    assert Shortlist(order) == order;
    FlagMeaning(l, corpus, params, order);
    assert !RememberedAccepted(l, corpus, params, order);
    SecondReturned(l, corpus, params, order);
  }

  lemma SecondReturned(l: Language, corpus: seq<Entry>, params: Params, order: seq<Candidate>)
    requires Enumerates(order, FullScan(l, corpus, params.q, params.fuzzy)) && Shortlist(order) == order
    requires |order| == 2 && order[1].doc == 1 < |corpus| && Accepts(params, corpus[1]) && Limit(params) >= 2
    requires IsExact(l, corpus[1], params.q) && InRange(corpus, Shortlist(order))
    ensures ReturnsExact(l, corpus, params, order)
  {
    hide FullScan, IsExact, Accepts, Filtered, Returned, Shortlist, StableSort, Limit, Enumerates;
    FilteredHits(l, corpus, params, order);
    TopOfFiltered(l, corpus, params, order);
    RerankInRange(l, corpus, params.q, order);
    var scored := Rerank(l, corpus, params.q, order);
    assert scored[1] in scored;
    FilteredSize(l, corpus, params, order);
    EverythingReturned(Returned(l, corpus, params, order), Filtered(l, corpus, params, order), Limit(params), scored[1]);
  }

  // ----- a candidate set over 200 -----

  /** One record with the queried name and 200 records that repeat it. */
  function Repeats(): (corpus: seq<Entry>)
    ensures |corpus| == 201
  {
    [Named("1", "X", "a")] + seq(200, _ => Named("2", "X", "a a"))
  }

  function QueryA(): Params {
    Params("a", None, None, true, 1000)
  }

  lemma RepeatedTokens(l: Language)
    requires l.normalize("a") == "a" && l.normalize("a a") == "a a"
    ensures Tokenize(l, "a") == ["a"] && Tokenize(l, "a a") == ["a", "a"]
  {
    assert Split("") == [""];
    assert "a"[1..] == "" && " a"[1..] == "a" && "a a"[1..] == " a";
    assert ['a'] + "" == "a";
    assert Split("a") == ["a"] by {
      assert Split("a") == [['a'] + Split("")[0]] + Split("")[1..];
    }
    assert Split(" a") == ["", "a"];
    assert Split("a a") == ["a", "a"];
    assert NonEmpty(["a"]) == ["a"] + NonEmpty([]);
    assert ["a", "a"][1..] == ["a"];
  }

  /** The same term twice in a record of twice the length never scores less. */
  lemma TwiceScoresMore(idf: real, avg: real)
    requires idf >= 0.0
    ensures Contribution(idf, 2, 2, avg) >= Contribution(idf, 1, 1, avg)
  {
    var m := Max(avg, 1.0);
    var r := 1.0 / m;
    assert r > 0.0;
    assert B * 1.0 / m == B * r && B * 2.0 / m == 2.0 * (B * r);
    var d1 := 1.0 + K1 * (1.0 - B + B * r);
    var d2 := 2.0 + K1 * (1.0 - B + 2.0 * (B * r));
    assert Denominator(1, 1, avg) == d1 && Denominator(2, 2, avg) == d2;
    var x := idf * 2.2;
    assert idf * (2.0 * (K1 + 1.0)) == 2.0 * x && idf * (1.0 * (K1 + 1.0)) == x;
    TwiceQuotient(x, d1, d2);
  }

  lemma TwiceQuotient(x: real, d1: real, d2: real)
    requires x >= 0.0 && 0.0 < d1 && 0.0 < d2 <= 2.0 * d1
    ensures 2.0 * x / d2 >= x / d1
  {
    var q := x / d1;
    assert x == q * d1;
    assert q >= 0.0;
    assert q * d2 <= q * (2.0 * d1);
    assert 2.0 * x / d2 * d2 == 2.0 * x;
    var p := 2.0 * x / d2;
    if p < q {
      assert p * d2 < q * d2;
    }
  }

  lemma RepeatScores(l: Language, d: nat)
    requires Lawful(l) && l.normalize("a") == "a" && l.normalize("a a") == "a a" && 1 <= d <= 200
    ensures Bm25(l, Repeats(), ["a"], d) >= Bm25(l, Repeats(), ["a"], 0)
    ensures IsCandidate(l, Repeats()[d], "a", true) && !IsExact(l, Repeats()[d], "a")
  {
    var corpus := Repeats();
    hide Df, Idf, Contribution, Tokenize, Trigrams, AverageLength, Lawful, DocTokens;
    RepeatedTokens(l);
    NamedTokens(l, "1", "X", "a");
    NamedTokens(l, "2", "X", "a a");
    assert corpus[0] == Named("1", "X", "a") && corpus[d] == Named("2", "X", "a a");
    var idf := Idf(l, |corpus|, Df(l, corpus, "a"));
    IdfNonNegative(l, |corpus|, Df(l, corpus, "a"));
    var avg := AverageLength(DocLens(l, corpus));
    TwiceScoresMore(idf, avg);
    assert multiset(["a"])["a"] == 1 && multiset(["a", "a"])["a"] == 2;
    assert TermScore(l, corpus, "a", 0) == Contribution(idf, 1, 1, avg);
    assert TermScore(l, corpus, "a", d) == Contribution(idf, 2, 2, avg);
    assert ["a"][..0] == [];
    assert "a" in ["a"] && "a" in DocTokens(l, corpus[d]);
    assert SharesToken(l, corpus[d], ["a"]);
  }

  function UpTo(n: nat): set<nat> {
    if n == 0 then {} else UpTo(n - 1) + {n}
  }

  lemma {:induction false} UpToSize(n: nat)
    ensures |UpTo(n)| == n
    ensures forall d :: d in UpTo(n) <==> 1 <= d <= n
  {
    if n > 0 {
      UpToSize(n - 1);
    }
  }

  lemma AtLeast(s: set<nat>, n: nat)
    requires forall d: nat :: 1 <= d <= n ==> d in s
    ensures |s| >= n
  {
    UpToSize(n);
    SubsetSize(UpTo(n), s);
  }

  /** What the full scan of the repeating corpus says of each record. */
  lemma RepeatScan(l: Language)
    requires Lawful(l) && l.normalize("a") == "a" && l.normalize("a a") == "a a"
    ensures IsExact(l, Repeats()[0], "a")
    ensures var scores := FullScan(l, Repeats(), "a", true);
            0 in scores && forall d: nat :: 1 <= d <= 200 ==>
              d in scores && scores[d] >= scores[0] && !IsExact(l, Repeats()[d], "a")
  {
    RepeatedTokens(l);
    NamedTokens(l, "1", "X", "a");
    assert Repeats()[0] == Named("1", "X", "a");
    assert IsExact(l, Repeats()[0], "a");
    hide FullScan, Bm25, IsCandidate, IsExact, Tokenize, Lawful, Repeats;
    ExactIsCandidate(l, Repeats()[0], "a", true);
    Scanned(l, Repeats(), "a", true, 0);
    forall d: nat | 1 <= d <= 200
      ensures d in FullScan(l, Repeats(), "a", true) && !IsExact(l, Repeats()[d], "a")
      ensures FullScan(l, Repeats(), "a", true)[d] >= FullScan(l, Repeats(), "a", true)[0]
    {
      RepeatScores(l, d);
      Scanned(l, Repeats(), "a", true, d);
    }
  }

  lemma RepeatRivals(l: Language)
    requires Lawful(l) && l.normalize("a") == "a" && l.normalize("a a") == "a a"
    ensures BestExact(l, Repeats(), "a", FullScan(l, Repeats(), "a", true), 0)
    ensures |Rivals(l, Repeats(), "a", FullScan(l, Repeats(), "a", true), 0)| >= 200
  {
    hide FullScan, IsExact, Lawful, Repeats;
    RepeatScan(l);
    ScanKeys(l, Repeats(), QueryA());
    AtLeast(Rivals(l, Repeats(), "a", FullScan(l, Repeats(), "a", true), 0), 200);
  }

  /** The cut at 200 can drop the one exact match of the corpus, even in a fuzzy unfiltered search with limit 1000. */
  lemma CutDropsExact(l: Language) returns (order: seq<Candidate>)
    requires Lawful(l) && l.normalize("a") == "a" && l.normalize("a a") == "a a"
    ensures IsExact(l, Repeats()[0], "a")
    ensures Enumerates(order, FullScan(l, Repeats(), "a", true))
    ensures InRange(Repeats(), Shortlist(order)) && !ExactFlag(l, Repeats(), QueryA(), order)
  {
    RepeatRivals(l);
    hide FullScan, Rivals, Shortlist, ExactFlag, Repeats, Enumerates, IsExact, Lawful, RivalsFirst, BestExact;
    order := RivalsInFront(l, Repeats(), QueryA(), 0);
    ManyRivals(l, Repeats(), QueryA(), 0, order);
    UnlistedIsUnflagged(l, Repeats(), QueryA(), order);
  }
}

/** From a name to a logged decision: the engine's answer as the gateway records it. */
module Screening {
  import opened Wrappers
  import opened Text
  import opened Corpus
  import opened Index
  import opened Scan
  import opened Ranking
  import opened Exact
  import opened Recall
  import opened Search
  import opened Storage
  import opened Review

  /** `rounded` gives the single-precision number for a score. */
  function SnapshotOf(h: Hit, rounded: real -> int): HitSnapshot {
    HitSnapshot(h.entryId, rounded(h.score), TlpToken(h.tlp), h.matchedFields, h.snippet)
  }

  function SnapshotsOf(hits: seq<Hit>, rounded: real -> int): seq<HitSnapshot> {
    seq(|hits|, i requires 0 <= i < |hits| => SnapshotOf(hits[i], rounded))
  }

  /** The search reply of the service, in the tokens of the line protocol. */
  function ReplyOf(r: SearchResult, rounded: real -> int): ServiceReply {
    ServiceReply(TlpToken(r.tlp), r.exactAliasMatch, SnapshotsOf(r.hits, rounded))
  }

  /** The reply carries band, flag and hits of the result, the hits in order. */
  lemma ReplyCarries(r: SearchResult, rounded: real -> int)
    ensures var reply := ReplyOf(r, rounded);
            reply.exactAliasMatch == r.exactAliasMatch && |reply.hits| == |r.hits|
            && reply.tlp == (if r.tlp == Red then "red" else if r.tlp == Yellow then "yellow" else "green")
            && forall i :: 0 <= i < |r.hits| ==>
                 var hit, sent := r.hits[i], reply.hits[i];
                 sent.entryId == hit.entryId && sent.score == rounded(hit.score) && sent.snippet == hit.snippet
                 && sent.matchedFields == hit.matchedFields
                 && sent.tlp == if hit.tlp == Red then "red" else if hit.tlp == Yellow then "yellow" else "green"
  {
  }

  /** Of an unfiltered search the event is auto-blocked exactly when an exact match is among the hits. */
  lemma AutoBlockMeansExact(l: Language, corpus: seq<Entry>, params: Params, order: seq<Candidate>, r: SearchResult,
                            rounded: real -> int, who: string, source: string, auditId: string, when: nat)
    requires Enumerates(order, FullScan(l, corpus, params.q, params.fuzzy)) && ResultOf(l, corpus, params, order, r)
    ensures var ev := EventOf(who, params.q, source, ReplyOf(r, rounded), auditId, when);
            ev.tlp == TlpToken(r.tlp)
            && (ev.decision == "auto-block" <==> r.exactAliasMatch)
            && (Unfiltered(params) ==> (ev.decision == "auto-block" <==> ReturnsExact(l, corpus, params, order)))
  {
    hide FullScan, Shortlist, Returned, Enumerates, ReturnsExact, HitOf, FirstExact;
    EventBandToken(r.tlp);
    if Unfiltered(params) {
      FlagUnfiltered(l, corpus, params, order);
    }
  }

  /** A small enough candidate set never lets an exact match of the corpus through, nor leaves it for review. */
  lemma ExactIsBlocked(l: Language, corpus: seq<Entry>, params: Params, order: seq<Candidate>, r: SearchResult,
                       rounded: real -> int, who: string, source: string, auditId: string, when: nat)
    requires Lawful(l) && Unfiltered(params) && params.fuzzy
    requires Enumerates(order, FullScan(l, corpus, params.q, params.fuzzy)) && ResultOf(l, corpus, params, order, r)
    requires |FullScan(l, corpus, params.q, params.fuzzy)| <= RERANK_TOP_K
    requires |FullScan(l, corpus, params.q, params.fuzzy)| <= Limit(params)
    ensures (exists e :: e in corpus && IsExact(l, e, params.q))
            <==> EventOf(who, params.q, source, ReplyOf(r, rounded), auditId, when).decision == "auto-block"
  {
    hide FullScan, Shortlist, Returned, Enumerates, HitOf, FirstExact, Limit, IsExact, Lawful, ExactFlag, ResultTlp;
    ExactRecall(l, corpus, params, order);
    AutoBlockMeansExact(l, corpus, params, order, r, rounded, who, source, auditId, when);
  }

  /** Whatever the order, the pipeline has a result. */
  lemma SomeResult(l: Language, corpus: seq<Entry>, params: Params, order: seq<Candidate>) returns (r: SearchResult)
    requires Enumerates(order, FullScan(l, corpus, params.q, params.fuzzy))
    ensures ResultOf(l, corpus, params, order, r)
  {
    hide FullScan, Shortlist, Returned, Enumerates, HitOf, FirstExact, ExactFlag, ResultTlp, Accepts, BestOf;
    TopOfFiltered(l, corpus, params, order);
    var returned := Returned(l, corpus, params, order);
    var first := FirstExact(l, corpus, params.q, Shortlist(order));
    assert forall i :: 0 <= i < |returned| ==> returned[i] in returned;
    var hits := seq(|returned|, i requires 0 <= i < |returned| => HitOf(l, corpus, params.q, returned[i], first));
    r := SearchResult(ResultTlp(l, corpus, params, order), hits, ExactFlag(l, corpus, params, order));
  }

  /**
    When screening a listed name blocks it, for every filter and every limit: each result that the search may give is
    auto-blocked if and only if the filters accept every best exact match, fewer than 200 other candidates are its
    rivals, and fewer than the limit of those are accepted and outrank it.
   */
  lemma ListedNameIsBlocked(l: Language, corpus: seq<Entry>, params: Params, d: nat, rounded: real -> int, who: string,
                            source: string, auditId: string, when: nat)
    requires Lawful(l)
    requires BestExact(l, corpus, params.q, FullScan(l, corpus, params.q, params.fuzzy), d)
    ensures (forall r :: MayAnswer(l, corpus, params, r) ==>
               EventOf(who, params.q, source, ReplyOf(r, rounded), auditId, when).decision == "auto-block")
            <==> BestAccepted(l, corpus, params, FullScan(l, corpus, params.q, params.fuzzy))
                 && |Rivals(l, corpus, params.q, FullScan(l, corpus, params.q, params.fuzzy), d)| < RERANK_TOP_K
                 && |AcceptedAbove(l, corpus, params, FullScan(l, corpus, params.q, params.fuzzy), d)| < Limit(params)
  {
    hide FullScan, Shortlist, Enumerates, ResultTlp, HitOf, FirstExact, Limit, IsExact, Lawful, ExactFlag, Rivals, AcceptedAbove, BestAccepted, BestExact, EventOf, ReplyOf, Returned;
    RecallWithFilters(l, corpus, params, d);
    var scores := FullScan(l, corpus, params.q, params.fuzzy);
    forall order, r | Enumerates(order, scores) && ResultOf(l, corpus, params, order, r)
      ensures EventOf(who, params.q, source, ReplyOf(r, rounded), auditId, when).decision == "auto-block"
              <==> ExactFlag(l, corpus, params, order)
    {
      AutoBlockMeansExact(l, corpus, params, order, r, rounded, who, source, auditId, when);
    }
    if order :| Enumerates(order, scores) && !(InRange(corpus, Shortlist(order)) && ExactFlag(l, corpus, params, order)) {
      var r := SomeResult(l, corpus, params, order);
      assert MayAnswer(l, corpus, params, r);
    }
  }

  /** Search, answer over the service, and log the event. */
  method ScreenName(l: Language, e: Engine, params: Params, g: Gateway, rounded: real -> int, who: string, source: string,
                    auditId: string, when: nat, ghost corpus: seq<Entry>)
    returns (reply: SearchReply, ghost order: seq<Candidate>)
    requires Lawful(l) && IndexOf(l, e, corpus)
    modifies g.store
    ensures Enumerates(order, FullScan(l, corpus, params.q, params.fuzzy)) && InRange(corpus, Shortlist(order))
    ensures |g.store.audit| == |old(g.store.audit)| + 1 && g.store.audit[..|old(g.store.audit)|] == old(g.store.audit)
    ensures g.store.audit[|g.store.audit| - 1].auditId == auditId == reply.auditId
    ensures g.store.audit[|g.store.audit| - 1].decision == reply.decision
    ensures g.store.workflow == old(g.store.workflow) && g.store.csl == old(g.store.csl)
    ensures exists r ::
      ResultOf(l, corpus, params, order, r)
      && TellsOf(g.store.audit[|g.store.audit| - 1], who, params.q, source, ReplyOf(r, rounded), auditId, when)
    ensures Unfiltered(params) ==> (reply.decision == "auto-block" <==> ReturnsExact(l, corpus, params, order))
  {
    hide FullScan, Shortlist, Returned, Enumerates, ReturnsExact, HitOf, FirstExact, IndexOf, Lawful, EventOf;
    var r := Search.Search(l, e, params, corpus);
    order :| Enumerates(order, FullScan(l, corpus, params.q, params.fuzzy)) && ResultOf(l, corpus, params, order, r);
    AutoBlockMeansExact(l, corpus, params, order, r, rounded, who, source, auditId, when);
    var answer := g.Search(who, Parsed(params.q), source, Ok(ReplyOf(r, rounded)), auditId, when);
    reply := answer.value;
    EventCarriesId(who, params.q, source, ReplyOf(r, rounded), auditId, when);
  }

  lemma EventCarriesId(who: string, query: string, source: string, reply: ServiceReply, auditId: string, when: nat)
    ensures EventOf(who, query, source, reply, auditId, when).auditId == auditId
  {
  }
}

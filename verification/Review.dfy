/** Search events, review decisions and the queue: the current decision is an overlay of two append-only logs. */
module Review {
  import opened Wrappers
  import opened Corpus
  import opened Storage
  import opened StoreMeaning
  import opened Backends

  const QUEUE_WINDOW := 500
  const TOP_HITS := 5

  // ----- requests and replies -----

  datatype Body<+T> = Missing | Malformed | Parsed(value: T)

  datatype ServiceReply = ServiceReply(tlp: string, exactAliasMatch: bool, hits: seq<HitSnapshot>)

  /** The service did not answer, or its answer was not understood. */
  datatype ServiceError = Unavailable | Undecodable

  datatype DecideBody = DecideBody(decision: string, note: Option<string>)

  datatype Response<+T> = Success(value: T) | Failure(status: nat)

  datatype SearchReply = SearchReply(auditId: string, tlp: string, decision: string, hits: seq<HitSnapshot>)

  datatype DecideReply = DecideReply(auditId: string, decision: string, decidedBy: string, decidedAt: nat)

  /** One line of the audit list or of the queue. */
  datatype Row = Row(event: SearchEvent, decision: string)

  datatype Detail = Detail(event: SearchEvent, decision: string, history: seq<WorkflowEntry>)

  /** A request that may change the logs; the audit id and the clock come from outside. */
  datatype Action =
    | Screen(who: string, query: Body<string>, source: string, reply: Result<ServiceReply, ServiceError>,
             auditId: string, when: nat)
    | Decide(who: string, auditId: string, body: Body<DecideBody>, when: nat)

  // ----- decisions -----

  function TlpToken(t: Tlp): string {
    match t
    case Green => "green"
    case Yellow => "yellow"
    case Red => "red"
  }

  function ParseTlp(s: string): Tlp {
    if s == "red" then Red else if s == "yellow" then Yellow else Green
  }

  function InitialDecision(t: Tlp, exactAliasMatch: bool): string {
    match t
    case Green => "auto-green"
    case Yellow => "pending-review"
    case Red => if exactAliasMatch then "auto-block" else "pending-block"
  }

  function AsciiLower(s: string): string {
    seq(|s|, i requires 0 <= i < |s| => if 'A' <= s[i] <= 'Z' then s[i] - 'A' + 'a' else s[i])
  }

  const APPROVED := "reviewed-approved"
  const BLOCKED := "reviewed-blocked"

  function ReviewDecision(requested: string): Option<string> {
    var d := AsciiLower(requested);
    if d == "cleared" || d == "approved" || d == APPROVED then Some(APPROVED)
    else if d == "blocked" || d == BLOCKED then Some(BLOCKED)
    else None
  }

  predicate IsPending(decision: string) {
    |decision| >= 8 && decision[..8] == "pending-"
  }

  function CurrentDecision(st: Store, ev: SearchEvent): string {
    var history := HistoryOf(st.workflow, ev.auditId);
    if history == [] then ev.decision else history[|history| - 1].decision
  }

  function HitIds(hits: seq<HitSnapshot>): seq<string> {
    seq(|hits|, i requires 0 <= i < |hits| => hits[i].entryId)
  }

  function EventOf(who: string, query: string, source: string, reply: ServiceReply, auditId: string, when: nat): SearchEvent {
    var tlp := ParseTlp(reply.tlp);
    var top := Take(reply.hits, TOP_HITS);
    SearchEvent(auditId, who, when, query, TlpToken(tlp), HitIds(top), InitialDecision(tlp, reply.exactAliasMatch), source, top)
  }

  // ----- decisions, letter by letter -----

  /** The same word but for the case of its letters; `small` has small letters only. */
  ghost predicate SpelledLike(word: string, small: string) {
    |word| == |small|
    && forall i :: 0 <= i < |small| ==> word[i] == small[i] || ('A' <= word[i] <= 'Z' && word[i] as int + 32 == small[i] as int)
  }

  ghost predicate MeansApproved(word: string) {
    SpelledLike(word, "cleared") || SpelledLike(word, "approved") || SpelledLike(word, "reviewed-approved")
  }

  ghost predicate MeansBlocked(word: string) {
    SpelledLike(word, "blocked") || SpelledLike(word, "reviewed-blocked")
  }

  ghost predicate SmallLetters(s: string) {
    forall i :: 0 <= i < |s| ==> !('A' <= s[i] <= 'Z')
  }

  lemma LowerIsSpelling(word: string, small: string)
    requires SmallLetters(small)
    ensures AsciiLower(word) == small <==> SpelledLike(word, small)
  {
    if SpelledLike(word, small) {
      forall i | 0 <= i < |word|
        ensures AsciiLower(word)[i] == small[i]
      {
      }
    }
    if AsciiLower(word) == small {
      forall i | 0 <= i < |small|
        ensures word[i] == small[i] || ('A' <= word[i] <= 'Z' && word[i] as int + 32 == small[i] as int)
      {
        assert AsciiLower(word)[i] == small[i];
      }
    }
  }

  /** Which words approve, which block, and that no other word decides. */
  lemma DecisionWords(word: string)
    ensures MeansApproved(word) ==> ReviewDecision(word) == Some("reviewed-approved")
    ensures MeansBlocked(word) ==> ReviewDecision(word) == Some("reviewed-blocked") && !MeansApproved(word)
    ensures !MeansApproved(word) && !MeansBlocked(word) ==> ReviewDecision(word) == None
  {
    hide AsciiLower, SpelledLike;
    LowerIsSpelling(word, "cleared");
    LowerIsSpelling(word, "approved");
    LowerIsSpelling(word, "reviewed-approved");
    LowerIsSpelling(word, "blocked");
    LowerIsSpelling(word, "reviewed-blocked");
    assert |"approved"| != |"blocked"| && |"reviewed-approved"| != |"reviewed-blocked"|;
    assert "cleared"[0] != "blocked"[0];
  }

  /** What a logged event tells of the search and of the answer of the service. */
  ghost predicate TellsOf(ev: SearchEvent, who: string, query: string, source: string, reply: ServiceReply,
                          auditId: string, when: nat) {
    && ev.auditId == auditId && ev.who == who && ev.query == query && ev.source == source && ev.when == when
    && ev.topHits <= reply.hits && |ev.topHits| == (if |reply.hits| < 5 then |reply.hits| else 5)
    && |ev.topHitIds| == |ev.topHits| && (forall i :: 0 <= i < |ev.topHits| ==> ev.topHitIds[i] == ev.topHits[i].entryId)
    && (reply.tlp == "red" ==> ev.tlp == "red" && ev.decision == if reply.exactAliasMatch then "auto-block" else "pending-block")
    && (reply.tlp == "yellow" ==> ev.tlp == "yellow" && ev.decision == "pending-review")
    && (reply.tlp != "red" && reply.tlp != "yellow" ==> ev.tlp == "green" && ev.decision == "auto-green")
  }

  lemma EventTells(who: string, query: string, source: string, reply: ServiceReply, auditId: string, when: nat)
    ensures TellsOf(EventOf(who, query, source, reply, auditId, when), who, query, source, reply, auditId, when)
  {
    assert "red" != "yellow";
  }

  /** The decision in force is that of the last review, or the initial one. */
  lemma CurrentIsLast(st: Store, ev: SearchEvent)
    ensures (forall w :: w in st.workflow ==> w.auditId != ev.auditId) ==> CurrentDecision(st, ev) == ev.decision
    ensures forall k :: 0 <= k < |st.workflow| && st.workflow[k].auditId == ev.auditId
                        && (forall j :: k < j < |st.workflow| ==> st.workflow[j].auditId != ev.auditId)
                        ==> CurrentDecision(st, ev) == st.workflow[k].decision
  {
    hide HistoryOf;
    var history := HistoryOf(st.workflow, ev.auditId);
    var at := HistorySelects(st.workflow, ev.auditId);
    if history == [] {
      forall k: nat | k < |st.workflow|
        ensures st.workflow[k].auditId != ev.auditId
      {
        assert k !in at;
      }
    } else {
      var last := at[|at| - 1];
      assert last in at;
      forall k | 0 <= k < |st.workflow| && st.workflow[k].auditId == ev.auditId
                 && (forall j :: k < j < |st.workflow| ==> st.workflow[j].auditId != ev.auditId)
        ensures CurrentDecision(st, ev) == st.workflow[k].decision
      {
        assert k in at;
        assert last <= k;
      }
      assert st.workflow[last] in st.workflow;
    }
  }

  // ----- what a request does to the logs -----

  function Next(st: Store, a: Action): Store {
    match a
    case Screen(who, query, source, reply, auditId, when) =>
      if query.Parsed? && reply.Ok? then
        st.(audit := st.audit + [EventOf(who, query.value, source, reply.value, auditId, when)])
      else st
    case Decide(who, auditId, body, when) =>
      if Decidable(st, auditId, body) then
        st.(workflow := st.workflow + [WorkflowEntry(auditId, ReviewDecision(body.value.decision).value, who, when, body.value.note)])
      else st
  }

  /** A decision is taken exactly when the event exists and the body names one of the known decisions. */
  predicate Decidable(st: Store, auditId: string, body: Body<DecideBody>) {
    auditId != [] && body.Parsed? && ReviewDecision(body.value.decision).Some? && EventWithId(st.audit, auditId).Some?
  }

  function RunAll(st: Store, actions: seq<Action>): Store
    decreases actions
  {
    if actions == [] then st else RunAll(Next(st, actions[0]), actions[1..])
  }

  function Overlay(st: Store, events: seq<SearchEvent>): seq<Row> {
    seq(|events|, i requires 0 <= i < |events| => Row(events[i], CurrentDecision(st, events[i])))
  }

  function InQueue(decision: string, includeAuto: bool): bool {
    IsPending(decision) || (includeAuto && decision == "auto-block")
  }

  function QueueOf(st: Store, events: seq<SearchEvent>, includeAuto: bool): seq<Row> {
    if events == [] then []
    else
      var n := |events| - 1;
      var decision := CurrentDecision(st, events[n]);
      QueueOf(st, events[..n], includeAuto) + if InQueue(decision, includeAuto) then [Row(events[n], decision)] else []
  }

  function DetailOf(st: Store, id: string): Option<Detail> {
    match EventWithId(st.audit, id)
    case None => None
    case Some(ev) => Some(Detail(ev, CurrentDecision(st, ev), HistoryOf(st.workflow, id)))
  }

  /** The routes over one storage backend. */
  class Gateway {
    const store: MemoryStorage

    constructor (store: MemoryStorage)
      ensures this.store == store
    {
      this.store := store;
    }

    method Search(who: string, query: Body<string>, source: string, reply: Result<ServiceReply, ServiceError>,
                  auditId: string, when: nat)
      returns (r: Response<SearchReply>)
      modifies store
      ensures store.Contents() == Next(old(store.Contents()), Screen(who, query, source, reply, auditId, when))
      ensures r.Success? <==> query.Parsed? && reply.Ok?
      ensures r.Success? ==>
        var ev := EventOf(who, query.value, source, reply.value, auditId, when);
        TellsOf(ev, who, query.value, source, reply.value, auditId, when)
        && store.audit == old(store.audit) + [ev] && store.workflow == old(store.workflow) && store.csl == old(store.csl)
        && r.value == SearchReply(auditId, ev.tlp, ev.decision, reply.value.hits)
      ensures r.Failure? ==>
        store.Contents() == old(store.Contents())
        && r.status == if !query.Parsed? then 400 else if reply.error.Unavailable? then 503 else 502
    {
      if !query.Parsed? {
        return Failure(400);
      }
      if reply.Err? {
        return Failure(if reply.error.Unavailable? then 503 else 502);
      }
      var event := EventOf(who, query.value, source, reply.value, auditId, when);
      EventTells(who, query.value, source, reply.value, auditId, when);
      var logged := store.Do(AuditLog(event));
      r := Success(SearchReply(auditId, event.tlp, event.decision, reply.value.hits));
    }

    /**
      A known event is approved or blocked by the words for that, in reply, log and from then on; without such a word
      the answer is 400, for an unknown event 404, and nothing is logged.
     */
    method ReviewDecide(who: string, auditId: string, body: Body<DecideBody>, when: nat)
      returns (r: Response<DecideReply>)
      modifies store
      ensures store.Contents() == Next(old(store.Contents()), Decide(who, auditId, body, when))
      ensures var worded := auditId != [] && body.Parsed? && (MeansApproved(body.value.decision) || MeansBlocked(body.value.decision));
              var known := exists ev :: ev in old(store.audit) && ev.auditId == auditId;
              (r.Success? <==> worded && known)
              && (r.Failure? ==> r.status == (if worded then 404 else 400) && store.Contents() == old(store.Contents()))
      ensures r.Success? ==>
        var decision := if MeansApproved(body.value.decision) then "reviewed-approved" else "reviewed-blocked";
        r.value == DecideReply(auditId, decision, who, when)
        && store.workflow == old(store.workflow) + [WorkflowEntry(auditId, decision, who, when, body.value.note)]
        && store.audit == old(store.audit) && store.csl == old(store.csl)
        && forall ev: SearchEvent :: ev.auditId == auditId ==> CurrentDecision(store.Contents(), ev) == decision
    {
      hide MeansApproved, MeansBlocked, ReviewDecision, CurrentDecision, EventWithId;
      EventFound(store.audit, auditId);
      if auditId == [] || !body.Parsed? {
        return Failure(400);
      }
      DecisionWords(body.value.decision);
      var decision := ReviewDecision(body.value.decision);
      if decision.None? {
        return Failure(400);
      }
      var found := store.Do(AuditGet(auditId));
      if found.event.None? {
        return Failure(404);
      }
      ghost var before := store.Contents();
      var done := store.Do(WorkflowLog(WorkflowEntry(auditId, decision.value, who, when, body.value.note)));
      forall ev: SearchEvent | ev.auditId == auditId
        ensures CurrentDecision(store.Contents(), ev) == decision.value
      {
        DecisionTakesEffect(before, who, body, when, ev);
      }
      r := Success(DecideReply(auditId, decision.value, who, when));
    }

    /** The decision in force for one event. */
    method Current(ev: SearchEvent) returns (decision: string)
      modifies store
      ensures store.Contents() == old(store.Contents())
      ensures decision == CurrentDecision(store.Contents(), ev)
    {
      var history := store.Do(WorkflowHistory(ev.auditId));
      decision := if history.history == [] then ev.decision else history.history[|history.history| - 1].decision;
    }

    method AuditList(limit: nat, offset: nat) returns (rows: seq<Row>)
      modifies store
      ensures store.Contents() == old(store.Contents())
      ensures rows == Overlay(store.Contents(), Page(store.Contents().audit, limit, offset))
    {
      hide Page, HistoryOf, CurrentDecision;
      var page := store.Do(AuditRecent(limit, offset));
      var events := page.events;
      rows := [];
      for i := 0 to |events|
        invariant store.Contents() == old(store.Contents()) && rows == Overlay(store.Contents(), events[..i])
      {
        var decision := Current(events[i]);
        rows := rows + [Row(events[i], decision)];
      }
      assert events[..|events|] == events;
    }

    method AuditDetail(id: string) returns (r: Response<Detail>)
      modifies store
      ensures store.Contents() == old(store.Contents())
      ensures r == if id == [] then Failure(400)
                   else if DetailOf(store.Contents(), id).None? then Failure(404)
                   else Success(DetailOf(store.Contents(), id).value)
    {
      if id == [] {
        return Failure(400);
      }
      var found := store.Do(AuditGet(id));
      if found.event.None? {
        return Failure(404);
      }
      FoundHasId(store.Contents().audit, id);
      var history := store.Do(WorkflowHistory(id));
      var decision := if history.history == [] then found.event.value.decision
                      else history.history[|history.history| - 1].decision;
      r := Success(Detail(found.event.value, decision, history.history));
    }

    method ReviewQueue(includeAuto: bool) returns (items: seq<Row>)
      modifies store
      ensures store.Contents() == old(store.Contents())
      ensures items == QueueOf(store.Contents(), Page(store.Contents().audit, QUEUE_WINDOW, 0), includeAuto)
    {
      hide CurrentDecision, QueueOf, Page, HistoryOf, InQueue;
      var page := store.Do(AuditRecent(QUEUE_WINDOW, 0));
      var recent := page.events;
      QueueOfNone(store.Contents(), includeAuto);
      items := [];
      for i := 0 to |recent|
        invariant store.Contents() == old(store.Contents()) && items == QueueOf(store.Contents(), recent[..i], includeAuto)
      {
        var decision := Current(recent[i]);
        QueueOneMore(store.Contents(), recent, i, includeAuto);
        if InQueue(decision, includeAuto) {
          items := items + [Row(recent[i], decision)];
        }
      }
      assert recent[..|recent|] == recent;
    }
  }

  lemma QueueOfNone(st: Store, includeAuto: bool)
    ensures QueueOf(st, [], includeAuto) == []
  {
  }

  lemma QueueOneMore(st: Store, events: seq<SearchEvent>, i: nat, includeAuto: bool)
    requires i < |events|
    ensures var decision := CurrentDecision(st, events[i]);
            QueueOf(st, events[..i + 1], includeAuto)
            == if InQueue(decision, includeAuto) then QueueOf(st, events[..i], includeAuto) + [Row(events[i], decision)]
               else QueueOf(st, events[..i], includeAuto)
  {
    hide CurrentDecision, InQueue;
    assert events[..i + 1][..i] == events[..i];
  }

  // ----- the invariant of every run -----

  predicate IsReviewed(decision: string) {
    decision == APPROVED || decision == BLOCKED
  }

  predicate FollowsBand(ev: SearchEvent) {
    ev.tlp == TlpToken(ParseTlp(ev.tlp))
    && (ev.decision == InitialDecision(ParseTlp(ev.tlp), true) || ev.decision == InitialDecision(ParseTlp(ev.tlp), false))
  }

  ghost predicate LogsMatch(st: Store) {
    && (forall i, j :: 0 <= i < j < |st.audit| ==> st.audit[i].auditId != st.audit[j].auditId)
    && (forall ev :: ev in st.audit ==> FollowsBand(ev))
    && (forall w :: w in st.workflow ==> IsReviewed(w.decision) && EventWithId(st.audit, w.auditId).Some?)
  }

  /** The audit id of a search is new. */
  predicate Fresh(st: Store, a: Action) {
    a.Screen? ==> EventWithId(st.audit, a.auditId).None?
  }

  ghost predicate FreshRun(st: Store, actions: seq<Action>)
    decreases actions
  {
    actions != [] ==> Fresh(st, actions[0]) && FreshRun(Next(st, actions[0]), actions[1..])
  }

  lemma {:induction false} EventFound(audit: seq<SearchEvent>, id: string)
    ensures var r := EventWithId(audit, id);
            if r.Some? then r.value in audit && r.value.auditId == id
            else forall ev :: ev in audit ==> ev.auditId != id
  {
    if audit != [] {
      EventFound(audit[..|audit| - 1], id);
      assert audit == audit[..|audit| - 1] + [audit[|audit| - 1]];
    }
  }

  lemma FoundHasId(audit: seq<SearchEvent>, id: string)
    ensures EventWithId(audit, id).Some? ==> EventWithId(audit, id).value.auditId == id
  {
    EventFound(audit, id);
  }

  lemma {:induction false} FoundLonger(audit: seq<SearchEvent>, ev: SearchEvent, id: string)
    requires EventWithId(audit, id).Some?
    ensures EventWithId(audit + [ev], id) == EventWithId(audit, id)
  {
    assert (audit + [ev])[..|audit|] == audit;
  }

  lemma EventBandToken(t: Tlp)
    ensures ParseTlp(TlpToken(t)) == t
  {
  }

  lemma ReviewDecisionIsReviewed(requested: string)
    ensures ReviewDecision(requested).Some? ==> IsReviewed(ReviewDecision(requested).value)
  {
  }

  lemma StepKeepsLogs(st: Store, a: Action)
    requires LogsMatch(st) && Fresh(st, a)
    ensures LogsMatch(Next(st, a))
  {
    hide EventWithId, ReviewDecision;
    var st' := Next(st, a);
    match a
    case Decide(who, auditId, body, when) =>
      if body.Parsed? {
        ReviewDecisionIsReviewed(body.value.decision);
      }
    case Screen(who, query, source, reply, auditId, when) =>
      if query.Parsed? && reply.Ok? {
        var ev := EventOf(who, query.value, source, reply.value, auditId, when);
        EventBandToken(ParseTlp(reply.value.tlp));
        EventFound(st.audit, auditId);
        forall w | w in st'.workflow
          ensures IsReviewed(w.decision) && EventWithId(st'.audit, w.auditId).Some?
        {
          FoundLonger(st.audit, ev, w.auditId);
        }
      }
  }

  /** Safety over every run: ids stay unique, decisions follow the stored band, every review names a logged event. */
  lemma {:induction false} RunKeepsLogs(st: Store, actions: seq<Action>)
    requires LogsMatch(st) && FreshRun(st, actions)
    ensures LogsMatch(RunAll(st, actions))
    decreases actions
  {
    if actions != [] {
      hide LogsMatch, Next;
      StepKeepsLogs(st, actions[0]);
      RunKeepsLogs(Next(st, actions[0]), actions[1..]);
    }
  }

  /** Both logs only grow, so no logged event, initial decision or review ever changes. */
  lemma {:induction false} LogsGrow(st: Store, actions: seq<Action>)
    ensures st.audit <= RunAll(st, actions).audit && st.workflow <= RunAll(st, actions).workflow
    ensures RunAll(st, actions).csl == st.csl
    decreases actions
  {
    if actions != [] {
      LogsGrow(Next(st, actions[0]), actions[1..]);
    }
  }

  // ----- pending and reviewed -----

  lemma {:induction false} HistoryFrom(workflow: seq<WorkflowEntry>, id: string)
    ensures forall w :: w in HistoryOf(workflow, id) <==> w in workflow && w.auditId == id
  {
    if workflow != [] {
      HistoryFrom(workflow[..|workflow| - 1], id);
      assert workflow == workflow[..|workflow| - 1] + [workflow[|workflow| - 1]];
    }
  }

  lemma PendingOrReviewed(t: Tlp, exact: bool)
    ensures IsPending(InitialDecision(t, exact)) <==> t.Yellow? || (t.Red? && !exact)
    ensures !IsPending(APPROVED) && !IsPending(BLOCKED)
  {
    assert "pending-review"[..8] == "pending-" && "pending-block"[..8] == "pending-";
    assert "auto-green"[..8][0] == 'a' && "auto-block"[..8][0] == 'a';
    assert APPROVED[..8][0] == 'r' && BLOCKED[..8][0] == 'r';
  }

  /** An event is pending exactly while its initial decision is and nobody has reviewed it. */
  lemma PendingMeansUnreviewed(st: Store, ev: SearchEvent)
    requires LogsMatch(st)
    ensures IsPending(CurrentDecision(st, ev)) <==> IsPending(ev.decision) && HistoryOf(st.workflow, ev.auditId) == []
    ensures HistoryOf(st.workflow, ev.auditId) != [] ==> IsReviewed(CurrentDecision(st, ev))
  {
    hide HistoryOf, IsPending;
    var history := HistoryOf(st.workflow, ev.auditId);
    HistoryFrom(st.workflow, ev.auditId);
    PendingOrReviewed(Green, false);
    if history != [] {
      assert history[|history| - 1] in history;
    }
  }

  lemma {:induction false} HistoryGrows(a: seq<WorkflowEntry>, b: seq<WorkflowEntry>, id: string)
    requires a <= b
    ensures HistoryOf(a, id) <= HistoryOf(b, id)
  {
    if |a| < |b| {
      HistoryGrows(a, b[..|b| - 1], id);
    } else {
      assert a == b;
    }
  }

  /** Once reviewed, an event is never pending again, whatever happens later. */
  lemma ReviewedStays(st: Store, actions: seq<Action>, ev: SearchEvent)
    requires LogsMatch(st) && FreshRun(st, actions)
    requires ev in st.audit && !IsPending(CurrentDecision(st, ev))
    ensures !IsPending(CurrentDecision(RunAll(st, actions), ev))
    ensures ev in RunAll(st, actions).audit
  {
    hide IsPending, HistoryOf, LogsMatch, CurrentDecision;
    RunKeepsLogs(st, actions);
    LogsGrow(st, actions);
    HistoryGrows(st.workflow, RunAll(st, actions).workflow, ev.auditId);
    PendingMeansUnreviewed(st, ev);
    PendingMeansUnreviewed(RunAll(st, actions), ev);
  }

  /** A decision that is taken is the current one. */
  lemma DecisionTakesEffect(st: Store, who: string, body: Body<DecideBody>, when: nat, ev: SearchEvent)
    requires Decidable(st, ev.auditId, body)
    ensures CurrentDecision(Next(st, Decide(who, ev.auditId, body, when)), ev) == ReviewDecision(body.value.decision).value
  {
    var entry := WorkflowEntry(ev.auditId, ReviewDecision(body.value.decision).value, who, when, body.value.note);
    assert (st.workflow + [entry])[..|st.workflow|] == st.workflow;
  }

  /** The audit ids that are not part of a request keep their decision. */
  lemma OthersKeepDecision(st: Store, a: Action, ev: SearchEvent)
    requires a.Decide? ==> a.auditId != ev.auditId
    ensures CurrentDecision(Next(st, a), ev) == CurrentDecision(st, ev)
  {
    if a.Decide? && Decidable(st, a.auditId, a.body) {
      hide ReviewDecision, Decidable;
      var w := Next(st, a).workflow;
      assert w[..|w| - 1] == st.workflow;
    }
  }

  // ----- list, detail and queue -----

  lemma {:induction false} FindsItself(audit: seq<SearchEvent>, ev: SearchEvent)
    requires forall i, j :: 0 <= i < j < |audit| ==> audit[i].auditId != audit[j].auditId
    requires ev in audit
    ensures EventWithId(audit, ev.auditId) == Some(ev)
  {
    var n := |audit| - 1;
    assert audit == audit[..n] + [audit[n]];
    if ev in audit[..n] {
      FindsItself(audit[..n], ev);
    } else {
      EventFound(audit[..n], ev.auditId);
      forall e | e in audit[..n]
        ensures e.auditId != ev.auditId
      {
        var k :| 0 <= k < n && audit[..n][k] == e;
        assert audit[k] == e && audit[n] == ev;
      }
    }
  }

  predicate IsQueued(st: Store, events: seq<SearchEvent>, includeAuto: bool, row: Row) {
    row.event in events && row.decision == CurrentDecision(st, row.event) && InQueue(row.decision, includeAuto)
  }

  lemma {:induction false} QueueMembers(st: Store, events: seq<SearchEvent>, includeAuto: bool)
    ensures forall row :: row in QueueOf(st, events, includeAuto) <==> IsQueued(st, events, includeAuto, row)
  {
    hide CurrentDecision, InQueue;
    if events != [] {
      QueueMembers(st, events[..|events| - 1], includeAuto);
      assert events == events[..|events| - 1] + [events[|events| - 1]];
    }
  }

  lemma NewestPage(audit: seq<SearchEvent>, i: nat)
    requires i < |audit|
    requires forall j, k :: 0 <= j < k < |audit| ==> audit[j].auditId != audit[k].auditId
    ensures audit[i] in Page(audit, QUEUE_WINDOW, 0) <==> |audit| - i <= QUEUE_WINDOW
  {
    var reversed := Reverse(audit);
    ReverseSize(audit);
    forall k | 0 <= k < |audit|
      ensures reversed[k] == audit[|audit| - 1 - k]
    {
      ReverseAt(audit, k);
    }
    hide Reverse;
    var page := Page(audit, QUEUE_WINDOW, 0);
    assert Skip(reversed, 0) == reversed;
    assert |audit| - i <= QUEUE_WINDOW ==> page[|audit| - 1 - i] == audit[i];
  }

  lemma BlockedAtFirst(st: Store, ev: SearchEvent)
    requires LogsMatch(st)
    ensures CurrentDecision(st, ev) == "auto-block" <==> ev.decision == "auto-block" && HistoryOf(st.workflow, ev.auditId) == []
  {
    hide HistoryOf, IsPending;
    var history := HistoryOf(st.workflow, ev.auditId);
    HistoryFrom(st.workflow, ev.auditId);
    if history != [] {
      assert history[|history| - 1] in history;
      assert APPROVED[0] == 'r' && BLOCKED[0] == 'r' && "auto-block"[0] == 'a';
    }
  }

  lemma PendingWords(ev: SearchEvent)
    requires FollowsBand(ev)
    ensures IsPending(ev.decision) <==> ev.decision == "pending-review" || ev.decision == "pending-block"
  {
    PendingOrReviewed(Green, false);
    PendingOrReviewed(ParseTlp(ev.tlp), true);
    PendingOrReviewed(ParseTlp(ev.tlp), false);
    assert "pending-review"[..8] == "pending-" && "pending-block"[..8] == "pending-";
  }

  /**
    The queue holds exactly the events among the 500 newest that nobody has reviewed and that wait for a review, or,
    if these are asked for, were blocked automatically: such an event is in it if and only if fewer than 500 events
    were logged after it. List, detail and queue show the same current decision.
   */
  lemma QueueIsPending(st: Store, i: nat, includeAuto: bool)
    requires LogsMatch(st) && i < |st.audit|
    ensures var ev := st.audit[i];
            Row(ev, CurrentDecision(st, ev)) in QueueOf(st, Page(st.audit, QUEUE_WINDOW, 0), includeAuto)
            <==> (ev.decision == "pending-review" || ev.decision == "pending-block"
                  || (includeAuto && ev.decision == "auto-block"))
                 && (forall w :: w in st.workflow ==> w.auditId != ev.auditId) && |st.audit| - i <= 500
    ensures DetailOf(st, st.audit[i].auditId)
            == Some(Detail(st.audit[i], CurrentDecision(st, st.audit[i]), HistoryOf(st.workflow, st.audit[i].auditId)))
  {
    hide HistoryOf, IsPending, Page, QueueOf, CurrentDecision, FollowsBand;
    var ev := st.audit[i];
    QueueMembers(st, Page(st.audit, QUEUE_WINDOW, 0), includeAuto);
    NewestPage(st.audit, i);
    PendingMeansUnreviewed(st, ev);
    BlockedAtFirst(st, ev);
    PendingWords(ev);
    HistoryFrom(st.workflow, ev.auditId);
    var history := HistoryOf(st.workflow, ev.auditId);
    assert history != [] ==> history[0] in history;
    FindsItself(st.audit, ev);
  }

  /** The rows of the queue are the queued ones of the page, in its order. */
  lemma {:induction false} QueueInOrder(st: Store, events: seq<SearchEvent>, includeAuto: bool) returns (at: seq<nat>)
    ensures var rows := QueueOf(st, events, includeAuto);
            |at| == |rows|
            && (forall i :: 0 <= i < |at| ==>
                  at[i] < |events| && rows[i] == Row(events[at[i]], CurrentDecision(st, events[at[i]])))
            && (forall i, j :: 0 <= i < j < |at| ==> at[i] < at[j])
  {
    hide CurrentDecision, InQueue;
    at := [];
    if events != [] {
      var n := |events| - 1;
      at := QueueInOrder(st, events[..n], includeAuto);
      if InQueue(CurrentDecision(st, events[n]), includeAuto) {
        at := at + [n];
      }
    }
  }

  /** The list shows the newest events first, each with its current decision. */
  lemma ListFromTheEnd(st: Store, limit: nat, offset: nat)
    ensures var rows := Overlay(st, Page(st.audit, limit, offset));
            IsPage(st.audit, limit, offset, Page(st.audit, limit, offset)) && |rows| == |Page(st.audit, limit, offset)|
            && forall i :: 0 <= i < |rows| ==>
                 rows[i].event == Page(st.audit, limit, offset)[i] && rows[i].decision == CurrentDecision(st, rows[i].event)
  {
    hide Page, CurrentDecision;
    PageFromTheEnd(st.audit, limit, offset);
  }

  /** Whatever page of the list an event is on, and in the queue, it carries the decision of its detail view. */
  lemma ViewsAgree(st: Store, row: Row, limit: nat, offset: nat, includeAuto: bool)
    requires LogsMatch(st)
    requires row in Overlay(st, Page(st.audit, limit, offset))
             || row in QueueOf(st, Page(st.audit, limit, offset), includeAuto)
    ensures DetailOf(st, row.event.auditId).Some?
    ensures DetailOf(st, row.event.auditId).value.event == row.event
    ensures DetailOf(st, row.event.auditId).value.decision == row.decision
  {
    hide HistoryOf, Page, CurrentDecision, InQueue;
    QueueMembers(st, Page(st.audit, limit, offset), includeAuto);
    hide QueueOf;
    PageFromLog(st.audit, limit, offset);
    assert row.event in Page(st.audit, limit, offset);
    FindsItself(st.audit, row.event);
  }

  lemma PageFromLog(audit: seq<SearchEvent>, limit: nat, offset: nat)
    ensures forall ev :: ev in Page(audit, limit, offset) ==> ev in audit
  {
    ReverseSize(audit);
    forall ev | ev in Page(audit, limit, offset)
      ensures ev in audit
    {
      var k :| 0 <= k < |audit| && Reverse(audit)[k] == ev;
      ReverseAt(audit, k);
    }
  }
}

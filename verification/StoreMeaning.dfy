/** What a storage backend answers, told by the operations that came before and the lists and logs they gave it. */
module StoreMeaning {
  import opened Wrappers
  import opened Corpus
  import opened Ingest
  import opened Storage

  /** The events that some operations log, in order. */
  function LoggedEvents(ops: seq<Op>): seq<SearchEvent> {
    if ops == [] then [] else (if ops[0].AuditLog? then [ops[0].event] else []) + LoggedEvents(ops[1..])
  }

  function LoggedReviews(ops: seq<Op>): seq<WorkflowEntry> {
    if ops == [] then [] else (if ops[0].WorkflowLog? then [ops[0].entry] else []) + LoggedReviews(ops[1..])
  }

  lemma {:induction false} ContentsAfter(st: Store, ops: seq<Op>)
    ensures AfterAll(st, ops).audit == st.audit + LoggedEvents(ops)
    ensures AfterAll(st, ops).workflow == st.workflow + LoggedReviews(ops)
    ensures (forall op :: op in ops ==> !op.BulkReplace?) ==> AfterAll(st, ops).csl == st.csl
    decreases ops
  {
    hide LoggedEvents, LoggedReviews, AfterAll, After;
    if ops == [] {
      NoOperation(st);
    } else {
      OneOperation(st, ops);
      ContentsAfter(After(st, ops[0]), ops[1..]);
      assert ops[0] in ops && forall op :: op in ops[1..] ==> op in ops;
    }
  }

  lemma NoOperation(st: Store)
    ensures AfterAll(st, []) == st && LoggedEvents([]) == [] && LoggedReviews([]) == []
  {
  }

  lemma OneOperation(st: Store, ops: seq<Op>)
    requires ops != []
    ensures AfterAll(st, ops) == AfterAll(After(st, ops[0]), ops[1..])
    ensures After(st, ops[0]).audit + LoggedEvents(ops[1..]) == st.audit + LoggedEvents(ops)
    ensures After(st, ops[0]).workflow + LoggedReviews(ops[1..]) == st.workflow + LoggedReviews(ops)
    ensures !ops[0].BulkReplace? ==> After(st, ops[0]).csl == st.csl
  {
    hide LoggedEvents, LoggedReviews, AfterAll;
    Unfolds(st, ops);
    var event := if ops[0].AuditLog? then [ops[0].event] else [];
    var review := if ops[0].WorkflowLog? then [ops[0].entry] else [];
    Regroup(st.audit, event, LoggedEvents(ops[1..]));
    Regroup(st.workflow, review, LoggedReviews(ops[1..]));
    assert st.audit + [] == st.audit && st.workflow + [] == st.workflow;
  }

  lemma Unfolds(st: Store, ops: seq<Op>)
    requires ops != []
    ensures AfterAll(st, ops) == AfterAll(After(st, ops[0]), ops[1..])
    ensures LoggedEvents(ops) == (if ops[0].AuditLog? then [ops[0].event] else []) + LoggedEvents(ops[1..])
    ensures LoggedReviews(ops) == (if ops[0].WorkflowLog? then [ops[0].entry] else []) + LoggedReviews(ops[1..])
  {
    hide After;
  }

  lemma Regroup<T>(a: seq<T>, b: seq<T>, c: seq<T>)
    ensures a + b + c == a + (b + c)
  {
  }

  lemma {:induction false} LastAnswer(st: Store, ops: seq<Op>, ask: Op)
    ensures |Answers(st, ops + [ask])| == |ops| + 1
    ensures Answers(st, ops + [ask])[|ops|] == AnswerTo(AfterAll(st, ops), ask)
    decreases ops
  {
    hide After, AnswerTo;
    if ops == [] {
      assert [] + [ask] == [ask] && [ask][1..] == [];
    } else {
      assert (ops + [ask])[1..] == ops[1..] + [ask];
      LastAnswer(After(st, ops[0]), ops[1..], ask);
    }
  }

  // ----- selections from a list -----

  /** `part` is what stands at the positions `at` of `whole`, in order, and these are exactly the wanted ones. */
  ghost predicate Selects<T>(part: seq<T>, whole: seq<T>, at: seq<nat>, wanted: iset<nat>) {
    && |part| == |at|
    && (forall i :: 0 <= i < |at| ==> at[i] < |whole| && part[i] == whole[at[i]])
    && (forall i, j :: 0 <= i < j < |at| ==> at[i] < at[j])
    && (forall k: nat :: k in at <==> k < |whole| && k in wanted)
  }

  lemma SelectsMore<T>(part: seq<T>, whole: seq<T>, at: seq<nat>, wanted: iset<nat>, x: T)
    requires Selects(part, whole, at, wanted)
    ensures |whole| in wanted ==> Selects(part + [x], whole + [x], at + [|whole|], wanted)
    ensures |whole| !in wanted ==> Selects(part, whole + [x], at, wanted)
  {
    forall i | 0 <= i < |at|
      ensures at[i] < |whole|
    {
      assert at[i] in at;
    }
  }

  ghost function FromSource(entries: seq<Entry>, source: string): iset<nat> {
    iset k: nat | k < |entries| && entries[k].sourceList == source
  }

  ghost function AboutEvent(workflow: seq<WorkflowEntry>, id: string): iset<nat> {
    iset k: nat | k < |workflow| && workflow[k].auditId == id
  }

  lemma {:induction false} SourceSelects(entries: seq<Entry>, source: string) returns (at: seq<nat>)
    ensures Selects(BySource(entries, source), entries, at, FromSource(entries, source))
  {
    at := [];
    if entries != [] {
      var n := |entries| - 1;
      at := SourceSelects(entries[..n], source);
      var wanted := FromSource(entries, source);
      SameSelection(BySource(entries[..n], source), entries[..n], at, FromSource(entries[..n], source), wanted);
      SelectsMore(BySource(entries[..n], source), entries[..n], at, wanted, entries[n]);
      assert entries == entries[..n] + [entries[n]];
      if entries[n].sourceList == source {
        at := at + [n];
      }
    }
  }

  lemma SameSelection<T>(part: seq<T>, whole: seq<T>, at: seq<nat>, wanted: iset<nat>, other: iset<nat>)
    requires Selects(part, whole, at, wanted)
    requires forall k: nat :: k < |whole| ==> (k in wanted <==> k in other)
    ensures Selects(part, whole, at, other)
  {
  }

  lemma {:induction false} HistorySelects(workflow: seq<WorkflowEntry>, id: string) returns (at: seq<nat>)
    ensures Selects(HistoryOf(workflow, id), workflow, at, AboutEvent(workflow, id))
  {
    at := [];
    if workflow != [] {
      var n := |workflow| - 1;
      at := HistorySelects(workflow[..n], id);
      var wanted := AboutEvent(workflow, id);
      SameSelection(HistoryOf(workflow[..n], id), workflow[..n], at, AboutEvent(workflow[..n], id), wanted);
      SelectsMore(HistoryOf(workflow[..n], id), workflow[..n], at, wanted, workflow[n]);
      assert workflow == workflow[..n] + [workflow[n]];
      if workflow[n].auditId == id {
        at := at + [n];
      }
    }
  }

  ghost predicate IsFirstEntry(entries: seq<Entry>, id: string, e: Option<Entry>) {
    if e.None? then forall k :: 0 <= k < |entries| ==> entries[k].id != id
    else exists k :: 0 <= k < |entries| && e.value == entries[k] && entries[k].id == id
                     && forall j :: 0 <= j < k ==> entries[j].id != id
  }

  lemma GetIsFirst(entries: seq<Entry>, id: string)
    ensures IsFirstEntry(entries, id, Get(entries, id))
  {
    hide FirstWithId;
    FirstIsFirst(entries, id);
  }

  function SourcePositions(entries: seq<Entry>, source: string): set<nat> {
    set k: nat | k < |entries| && entries[k].sourceList == source
  }

  lemma OnePositionMore(entries: seq<Entry>, source: string)
    requires entries != []
    ensures var n := |entries| - 1;
            SourcePositions(entries, source)
            == (if entries[n].sourceList == source then {n} else {}) + SourcePositions(entries[..n], source)
            && n !in SourcePositions(entries[..n], source)
  {
  }

  lemma {:induction false} SourceSize(entries: seq<Entry>, source: string)
    ensures |BySource(entries, source)| == |SourcePositions(entries, source)|
  {
    hide SourcePositions;
    if entries != [] {
      SourceSize(entries[..|entries| - 1], source);
      OnePositionMore(entries, source);
    } else {
      NoPositions(source);
    }
  }

  lemma NoPositions(source: string)
    ensures SourcePositions([], source) == {}
  {
  }

  /** The counts by source, each source once. */
  ghost predicate CountsSources(counts: seq<SourceCount>, entries: seq<Entry>) {
    NamesIncrease(counts)
    && forall s :: CountOf(counts, s) == |SourcePositions(entries, s)|
  }

  lemma SourceCounts(entries: seq<Entry>)
    ensures CountsSources(CountSources(entries), entries)
  {
    hide BySource, CountSources, CountOf, NamesIncrease;
    SourcesCounted(entries, "");
    forall s
      ensures CountOf(CountSources(entries), s) == |SourcePositions(entries, s)|
    {
      SourcesCounted(entries, s);
      SourceSize(entries, s);
    }
  }

  ghost predicate IsFirstEvent(log: seq<SearchEvent>, id: string, e: Option<SearchEvent>) {
    if e.None? then forall k :: 0 <= k < |log| ==> log[k].auditId != id
    else exists k :: 0 <= k < |log| && e.value == log[k] && log[k].auditId == id
                     && forall j :: 0 <= j < k ==> log[j].auditId != id
  }

  lemma {:induction false} EventIsFirst(log: seq<SearchEvent>, id: string)
    ensures IsFirstEvent(log, id, EventWithId(log, id))
  {
    if log != [] {
      var n := |log| - 1;
      EventIsFirst(log[..n], id);
      if e :| EventWithId(log[..n], id) == Some(e) {
        var k :| 0 <= k < n && e == log[..n][k] && log[..n][k].auditId == id
                 && forall j :: 0 <= j < k ==> log[..n][j].auditId != id;
        assert log[k] == e && forall j :: 0 <= j < k ==> log[j] == log[..n][j];
      } else {
        assert forall j :: 0 <= j < n ==> log[j] == log[..n][j];
      }
    }
  }

  /** The rows of a page, counted from the end of the log. */
  ghost predicate IsPage<T>(log: seq<T>, limit: nat, offset: nat, page: seq<T>) {
    && |page| == (if offset >= |log| then 0 else if |log| - offset < limit then |log| - offset else limit)
    && forall i :: 0 <= i < |page| ==> 0 <= |log| - 1 - offset - i && page[i] == log[|log| - 1 - offset - i]
  }

  lemma PageFromTheEnd<T>(log: seq<T>, limit: nat, offset: nat)
    ensures IsPage(log, limit, offset, Page(log, limit, offset))
  {
    hide Reverse;
    ReverseSize(log);
    forall i | 0 <= i < |log|
      ensures Reverse(log)[i] == log[|log| - 1 - i]
    {
      ReverseAt(log, i);
    }
  }

  // ----- the answers -----

  /** What a query of the corpus must answer when the corpus is that of one replacement. */
  ghost predicate TellsCorpus(ask: Op, answer: Answer, entries: seq<Entry>, fetchedAt: nat, version: string) {
    match ask
    case ListAll => answer == EntriesAnswer(entries)
    case Metadata =>
      answer.MetadataAnswer? && answer.metadata.Some? && answer.metadata.value.fetchedAt == fetchedAt
      && answer.metadata.value.version == version && answer.metadata.value.count == |entries|
      && CountsSources(answer.metadata.value.sources, entries)
    case ListBySource(source) =>
      answer.EntriesAnswer?
      && exists at :: Selects(answer.entries, entries, at, FromSource(entries, source))
    case GetEntry(id) => answer.EntryAnswer? && IsFirstEntry(entries, id, answer.entry)
    case _ => true
  }

  /**
    From any contents: after a replacement of the corpus, and whatever else but another one, every query is answered
    from exactly its entries.
   */
  lemma ReplacedCorpus(st: Store, entries: seq<Entry>, fetchedAt: nat, version: string, more: seq<Op>, ask: Op)
    requires forall op :: op in more ==> !op.BulkReplace?
    ensures var ops := [BulkReplace(entries, fetchedAt, version)] + more;
            |Answers(st, ops + [ask])| == |ops| + 1
            && TellsCorpus(ask, Answers(st, ops + [ask])[|ops|], entries, fetchedAt, version)
  {
    hide Answers, BySource, Get, CountSources, Page, HistoryOf, EventWithId;
    var ops := [BulkReplace(entries, fetchedAt, version)] + more;
    LastAnswer(st, ops, ask);
    ReplacedContents(st, entries, fetchedAt, version, more);
    SourceCounts(entries);
    if ask.ListBySource? {
      var at := SourceSelects(entries, ask.source);
    } else if ask.GetEntry? {
      GetIsFirst(entries, ask.id);
    }
  }

  lemma ReplacedContents(st: Store, entries: seq<Entry>, fetchedAt: nat, version: string, more: seq<Op>)
    requires forall op :: op in more ==> !op.BulkReplace?
    ensures AfterAll(st, [BulkReplace(entries, fetchedAt, version)] + more).csl == Some(Snapshot(fetchedAt, entries, version))
  {
    var replace := BulkReplace(entries, fetchedAt, version);
    assert ([replace] + more)[0] == replace && ([replace] + more)[1..] == more;
    ContentsAfter(After(st, replace), more);
  }

  /** Before the first replacement there is no corpus. */
  lemma NoCorpusYet(st: Store, ops: seq<Op>, ask: Op)
    requires st.csl == None && forall op :: op in ops ==> !op.BulkReplace?
    ensures |Answers(st, ops + [ask])| == |ops| + 1
    ensures var answer := Answers(st, ops + [ask])[|ops|];
            (ask.ListAll? || ask.ListBySource? ==> answer == EntriesAnswer([])) && (ask.Metadata? ==> answer == MetadataAnswer(None))
            && (ask.GetEntry? ==> answer == EntryAnswer(None))
  {
    LastAnswer(st, ops, ask);
    ContentsAfter(st, ops);
  }

  /** What a query of the logs must answer. */
  ghost predicate TellsLogs(ask: Op, answer: Answer, audit: seq<SearchEvent>, workflow: seq<WorkflowEntry>) {
    match ask
    case AuditRecent(limit, offset) => answer.EventsAnswer? && IsPage(audit, limit, offset, answer.events)
    case AuditGet(id) => answer.EventAnswer? && IsFirstEvent(audit, id, answer.event)
    case WorkflowRecent(limit) => answer.WorkflowAnswer? && IsPage(workflow, limit, 0, answer.history)
    case WorkflowHistory(id) =>
      answer.WorkflowAnswer?
      && exists at :: Selects(answer.history, workflow, at, AboutEvent(workflow, id))
    case AuditLog(event) => answer == Logged(event.auditId)
    case WorkflowLog(_) => answer == Done
    case BulkReplace(_, _, _) => answer == Done
    case _ => true
  }

  /** From any contents: both logs are what they were and what was logged since, whatever happens to the corpus. */
  lemma GrownLogs(st: Store, ops: seq<Op>, ask: Op)
    ensures |Answers(st, ops + [ask])| == |ops| + 1
    ensures TellsLogs(ask, Answers(st, ops + [ask])[|ops|], st.audit + LoggedEvents(ops), st.workflow + LoggedReviews(ops))
  {
    hide Answers, AfterAll, BySource, Get, CountSources, Page, HistoryOf, EventWithId;
    LastAnswer(st, ops, ask);
    ContentsAfter(st, ops);
    var audit, workflow := st.audit + LoggedEvents(ops), st.workflow + LoggedReviews(ops);
    match ask
    case AuditRecent(limit, offset) => PageFromTheEnd(audit, limit, offset);
    case AuditGet(id) => EventIsFirst(audit, id);
    case WorkflowRecent(limit) => PageFromTheEnd(workflow, limit, 0);
    case WorkflowHistory(id) => var at := HistorySelects(workflow, id);
    case _ =>
  }
}

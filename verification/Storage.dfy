/** What a storage backend holds and answers: the corpus snapshot and two append-only logs. */
module Storage {
  import opened Wrappers
  import opened Text
  import opened Corpus
  import opened Ingest

  datatype Snapshot = Snapshot(fetchedAt: nat, entries: seq<Entry>, version: string)

  /** A stored hit. Of the finite single-precision numbers, in order, its score is the one with this index. */
  datatype HitSnapshot = HitSnapshot(entryId: string, score: int, tlp: string, matchedFields: seq<string>, snippet: string)

  datatype SearchEvent = SearchEvent(
    auditId: string,
    who: string,
    when: nat,
    query: string,
    tlp: string,
    topHitIds: seq<string>,
    decision: string,
    source: string,
    topHits: seq<HitSnapshot>
  )

  datatype WorkflowEntry = WorkflowEntry(
    auditId: string,
    decision: string,
    decidedBy: string,
    decidedAt: nat,
    note: Option<string>
  )

  datatype SourceCount = SourceCount(name: string, count: nat)

  datatype CslMetadata = CslMetadata(fetchedAt: nat, count: nat, sources: seq<SourceCount>, version: string)

  datatype StorageError = Serde

  /** The abstract contents of a backend. */
  datatype Store = Store(csl: Option<Snapshot>, audit: seq<SearchEvent>, workflow: seq<WorkflowEntry>)

  // ----- the queries -----

  function EntriesOf(csl: Option<Snapshot>): seq<Entry> {
    if csl.Some? then csl.value.entries else []
  }

  function BySource(entries: seq<Entry>, source: string): seq<Entry> {
    if entries == [] then []
    else
      var n := |entries| - 1;
      BySource(entries[..n], source) + if entries[n].sourceList == source then [entries[n]] else []
  }

  function Reverse<T>(s: seq<T>): seq<T> {
    if s == [] then [] else [s[|s| - 1]] + Reverse(s[..|s| - 1])
  }

  function Skip<T>(s: seq<T>, n: nat): seq<T> {
    if n >= |s| then [] else s[n..]
  }

  /** A page of a log, newest first. */
  function Page<T>(log: seq<T>, limit: nat, offset: nat): seq<T> {
    Take(Skip(Reverse(log), offset), limit)
  }

  function EventWithId(audit: seq<SearchEvent>, id: string): Option<SearchEvent> {
    if audit == [] then None
    else
      var n := |audit| - 1;
      var before := EventWithId(audit[..n], id);
      if before.Some? then before else if audit[n].auditId == id then Some(audit[n]) else None
  }

  function HistoryOf(workflow: seq<WorkflowEntry>, id: string): seq<WorkflowEntry> {
    if workflow == [] then []
    else
      var n := |workflow| - 1;
      HistoryOf(workflow[..n], id) + if workflow[n].auditId == id then [workflow[n]] else []
  }

  // ----- counts by source, in a map ordered by name -----

  function Bump(counts: seq<SourceCount>, name: string): seq<SourceCount> {
    if counts == [] then [SourceCount(name, 1)]
    else if counts[0].name == name then [SourceCount(name, counts[0].count + 1)] + counts[1..]
    else if StringLe(name, counts[0].name) then [SourceCount(name, 1)] + counts
    else [counts[0]] + Bump(counts[1..], name)
  }

  function CountSources(entries: seq<Entry>): seq<SourceCount> {
    if entries == [] then []
    else Bump(CountSources(entries[..|entries| - 1]), entries[|entries| - 1].sourceList)
  }

  method TallySources(entries: seq<Entry>) returns (counts: seq<SourceCount>)
    ensures counts == CountSources(entries)
  {
    counts := [];
    for i := 0 to |entries|
      invariant counts == CountSources(entries[..i])
    {
      counts := Bump(counts, entries[i].sourceList);
      assert entries[..i + 1][..i] == entries[..i];
    }
    assert entries[..|entries|] == entries;
  }

  function TotalCount(counts: seq<SourceCount>): nat {
    if counts == [] then 0 else counts[0].count + TotalCount(counts[1..])
  }

  function CountOf(counts: seq<SourceCount>, name: string): nat {
    if counts == [] then 0 else (if counts[0].name == name then counts[0].count else 0) + CountOf(counts[1..], name)
  }

  /** In the order of a dictionary, no name twice. */
  ghost predicate NamesIncrease(counts: seq<SourceCount>) {
    forall i, j :: 0 <= i < j < |counts| ==> Precedes(counts[i].name, counts[j].name)
  }

  ghost predicate NamesAscend(counts: seq<SourceCount>) {
    forall i, j :: 0 <= i < j < |counts| ==>
      StringLe(counts[i].name, counts[j].name) && counts[i].name != counts[j].name
  }

  lemma AscendingNamesIncrease(counts: seq<SourceCount>)
    requires NamesAscend(counts)
    ensures NamesIncrease(counts)
  {
    hide StringLe, Precedes;
    forall i, j | 0 <= i < j < |counts|
      ensures Precedes(counts[i].name, counts[j].name)
    {
      StringLeIsDictionary(counts[i].name, counts[j].name);
    }
  }

  lemma {:induction false} BumpCounts(counts: seq<SourceCount>, name: string, other: string)
    ensures TotalCount(Bump(counts, name)) == TotalCount(counts) + 1
    ensures CountOf(Bump(counts, name), other) == CountOf(counts, other) + if other == name then 1 else 0
  {
    if counts != [] {
      assert ([SourceCount(name, counts[0].count + 1)] + counts[1..])[1..] == counts[1..];
      assert ([SourceCount(name, 1)] + counts)[1..] == counts;
      assert ([counts[0]] + Bump(counts[1..], name))[1..] == Bump(counts[1..], name);
      BumpCounts(counts[1..], name, other);
    }
  }

  lemma {:induction false} BumpNames(counts: seq<SourceCount>, name: string)
    ensures forall c :: c in Bump(counts, name) ==> c.name == name || exists d :: d in counts && d.name == c.name
  {
    if counts != [] {
      BumpNames(counts[1..], name);
    }
  }

  lemma {:induction false} BumpKeepsOrder(counts: seq<SourceCount>, name: string)
    requires NamesAscend(counts)
    ensures NamesAscend(Bump(counts, name))
  {
    hide StringLe;
    if counts != [] && counts[0].name != name {
      StringLeTotal(name, counts[0].name);
      if StringLe(name, counts[0].name) {
        forall j | 0 <= j < |counts|
          ensures StringLe(name, counts[j].name) && name != counts[j].name
        {
          if j > 0 {
            StringLeTransitive(name, counts[0].name, counts[j].name);
            StringLeTotal(counts[0].name, counts[j].name);
          }
        }
      } else {
        BumpKeepsOrder(counts[1..], name);
        BumpNames(counts[1..], name);
        assert Bump(counts, name) == [counts[0]] + Bump(counts[1..], name);
        hide Bump;
        InFrontOfNames(counts, name, Bump(counts[1..], name));
      }
    }
  }

  lemma InFrontOfNames(counts: seq<SourceCount>, name: string, rest: seq<SourceCount>)
    requires counts != [] && NamesAscend(counts) && NamesAscend(rest)
    requires StringLe(counts[0].name, name) && counts[0].name != name
    requires forall c :: c in rest ==> c.name == name || exists d :: d in counts[1..] && d.name == c.name
    ensures NamesAscend([counts[0]] + rest)
  {
    hide StringLe;
    forall j | 0 <= j < |rest|
      ensures StringLe(counts[0].name, rest[j].name) && counts[0].name != rest[j].name
    {
      assert rest[j] in rest;
      if rest[j].name != name {
        var d :| d in counts[1..] && d.name == rest[j].name;
        var k :| 0 <= k < |counts| - 1 && counts[1..][k] == d;
        assert counts[k + 1] == d;
      }
    }
  }

  lemma {:induction false} SourcesTallied(entries: seq<Entry>, name: string)
    ensures NamesAscend(CountSources(entries))
    ensures TotalCount(CountSources(entries)) == |entries|
    ensures CountOf(CountSources(entries), name) == |BySource(entries, name)|
  {
    if entries != [] {
      var n := |entries| - 1;
      SourcesTallied(entries[..n], name);
      BumpKeepsOrder(CountSources(entries[..n]), entries[n].sourceList);
      BumpCounts(CountSources(entries[..n]), entries[n].sourceList, name);
    }
  }

  /** The metadata counts every entry once under its source, the sources strictly in order of name. */
  lemma SourcesCounted(entries: seq<Entry>, name: string)
    ensures NamesIncrease(CountSources(entries))
    ensures TotalCount(CountSources(entries)) == |entries|
    ensures CountOf(CountSources(entries), name) == |BySource(entries, name)|
  {
    hide NamesAscend, NamesIncrease;
    SourcesTallied(entries, name);
    AscendingNamesIncrease(CountSources(entries));
  }

  function MetadataOf(csl: Option<Snapshot>): Option<CslMetadata> {
    if csl.None? then None
    else Some(CslMetadata(csl.value.fetchedAt, |csl.value.entries|, CountSources(csl.value.entries), csl.value.version))
  }

  // ----- operations -----

  datatype Op =
    | BulkReplace(entries: seq<Entry>, fetchedAt: nat, version: string)
    | Metadata
    | ListAll
    | ListBySource(source: string)
    | GetEntry(id: string)
    | AuditLog(event: SearchEvent)
    | AuditRecent(limit: nat, offset: nat)
    | AuditGet(auditId: string)
    | WorkflowLog(entry: WorkflowEntry)
    | WorkflowHistory(auditId: string)
    | WorkflowRecent(limit: nat)

  datatype Answer =
    | Done
    | MetadataAnswer(metadata: Option<CslMetadata>)
    | EntriesAnswer(entries: seq<Entry>)
    | EntryAnswer(entry: Option<Entry>)
    | Logged(auditId: string)
    | EventsAnswer(events: seq<SearchEvent>)
    | EventAnswer(event: Option<SearchEvent>)
    | WorkflowAnswer(history: seq<WorkflowEntry>)

  function After(st: Store, op: Op): Store {
    match op
    case BulkReplace(entries, fetchedAt, version) => st.(csl := Some(Snapshot(fetchedAt, entries, version)))
    case AuditLog(event) => st.(audit := st.audit + [event])
    case WorkflowLog(entry) => st.(workflow := st.workflow + [entry])
    case _ => st
  }

  function AnswerTo(st: Store, op: Op): Answer {
    match op
    case BulkReplace(_, _, _) => Done
    case Metadata => MetadataAnswer(MetadataOf(st.csl))
    case ListAll => EntriesAnswer(EntriesOf(st.csl))
    case ListBySource(source) => EntriesAnswer(BySource(EntriesOf(st.csl), source))
    case GetEntry(id) => EntryAnswer(Get(EntriesOf(st.csl), id))
    case AuditLog(event) => Logged(event.auditId)
    case AuditRecent(limit, offset) => EventsAnswer(Page(st.audit, limit, offset))
    case AuditGet(auditId) => EventAnswer(EventWithId(st.audit, auditId))
    case WorkflowLog(_) => Done
    case WorkflowHistory(auditId) => WorkflowAnswer(HistoryOf(st.workflow, auditId))
    case WorkflowRecent(limit) => WorkflowAnswer(Page(st.workflow, limit, 0))
  }

  /** The answers to a whole sequence of operations. */
  function Answers(st: Store, ops: seq<Op>): seq<Answer>
    decreases ops
  {
    if ops == [] then [] else [AnswerTo(st, ops[0])] + Answers(After(st, ops[0]), ops[1..])
  }

  function AfterAll(st: Store, ops: seq<Op>): Store
    decreases ops
  {
    if ops == [] then st else AfterAll(After(st, ops[0]), ops[1..])
  }

  // ----- paging -----

  lemma {:induction false} ReverseAt<T>(s: seq<T>, i: nat)
    requires i < |s|
    ensures |Reverse(s)| == |s| && Reverse(s)[i] == s[|s| - 1 - i]
  {
    if i > 0 {
      ReverseAt(s[..|s| - 1], i - 1);
    } else if |s| > 1 {
      ReverseAt(s[..|s| - 1], 0);
    }
  }

  lemma ReverseSize<T>(s: seq<T>)
    ensures |Reverse(s)| == |s|
  {
    if s != [] {
      ReverseAt(s, 0);
    }
  }

  /** The first `k` pages of size `limit`, one after the other. */
  function Pages<T>(log: seq<T>, limit: nat, k: nat): seq<T> {
    if k == 0 then [] else Pages(log, limit, k - 1) + Page(log, limit, (k - 1) * limit)
  }

  /** Consecutive pages are a prefix of the reversed log: nothing lost, nothing repeated. */
  lemma {:induction false} PagesAreReversedLog<T>(log: seq<T>, limit: nat, k: nat)
    ensures Pages(log, limit, k) == Take(Reverse(log), k * limit)
  {
    hide Reverse;
    if k > 0 {
      PagesAreReversedLog(log, limit, k - 1);
      assert k * limit == (k - 1) * limit + limit;
      NextPage(Reverse(log), (k - 1) * limit, limit);
    }
  }

  lemma NextPage<T>(s: seq<T>, offset: nat, limit: nat)
    ensures Take(s, offset) + Take(Skip(s, offset), limit) == Take(s, offset + limit)
  {
  }

  /** Enough pages are the whole log. */
  lemma AllPages<T>(log: seq<T>, limit: nat, k: nat)
    requires k * limit >= |log|
    ensures Pages(log, limit, k) == Reverse(log)
  {
    ReverseSize(log);
    PagesAreReversedLog(log, limit, k);
  }

  /** Events logged between two page requests shift the pages by their number. */
  lemma {:induction false} PagesShift<T>(log: seq<T>, newer: seq<T>, limit: nat, offset: nat)
    ensures Page(log + newer, limit, offset + |newer|) == Page(log, limit, offset)
  {
    if newer == [] {
      assert log + newer == log;
    } else {
      var n := |newer| - 1;
      assert (log + newer)[..|log + newer| - 1] == log + newer[..n];
      PagesShift(log, newer[..n], limit, offset);
      var older := Reverse(log + newer[..n]);
      assert Reverse(log + newer) == [newer[n]] + older;
      SkipFirst(newer[n], older, offset + n);
    }
  }

  lemma SkipFirst<T>(x: T, s: seq<T>, n: nat)
    ensures Skip([x] + s, n + 1) == Skip(s, n)
  {
  }
}

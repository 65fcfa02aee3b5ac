/** The two storage backends: text files, and vectors in memory. */
module Backends {
  import opened Wrappers
  import opened Ingest
  import opened LineProtocol
  import opened Storage
  import opened JsonLines

  /** The encodings of the three files that are modelled. */
  datatype Codecs = Codecs(
    snapshot: Codec<Snapshot>,
    event: Codec<SearchEvent>,
    workflow: Codec<WorkflowEntry>
  )

  /** The snapshot is a file of its own, printed over many lines; the entries of the logs are single lines. */
  ghost predicate AllFaithful(c: Codecs) {
    RoundTrips(c.snapshot) && Faithful(c.event) && Faithful(c.workflow)
  }

  function ReadSnapshot(c: Codecs, file: Option<seq<byte>>): Result<Option<Snapshot>, StorageError> {
    if file.None? then Ok(None)
    else match c.snapshot.decode(file.value)
      case None => Err(Serde)
      case Some(snapshot) => Ok(Some(snapshot))
  }

  /** Every operation is a change to vectors. */
  class MemoryStorage {
    var csl: Option<Snapshot>
    var audit: seq<SearchEvent>
    var workflow: seq<WorkflowEntry>

    ghost function Contents(): Store
      reads this
    {
      Store(csl, audit, workflow)
    }

    constructor ()
      ensures Contents() == Store(None, [], [])
    {
      csl, audit, workflow := None, [], [];
    }

    method Do(op: Op) returns (r: Answer)
      modifies this
      ensures Contents() == After(old(Contents()), op)
      ensures r == AnswerTo(old(Contents()), op)
    {
      match op
      case BulkReplace(entries, fetchedAt, version) =>
        csl := Some(Snapshot(fetchedAt, entries, version));
        r := Done;
      case Metadata =>
        var metadata := None;
        if csl.Some? {
          var sources := TallySources(csl.value.entries);
          metadata := Some(CslMetadata(csl.value.fetchedAt, |csl.value.entries|, sources, csl.value.version));
        }
        r := MetadataAnswer(metadata);
      case ListAll => r := EntriesAnswer(EntriesOf(csl));
      case ListBySource(source) => r := EntriesAnswer(BySource(EntriesOf(csl), source));
      case GetEntry(id) => r := EntryAnswer(Get(EntriesOf(csl), id));
      case AuditLog(event) =>
        audit := audit + [event];
        r := Logged(event.auditId);
      case AuditRecent(limit, offset) => r := EventsAnswer(Page(audit, limit, offset));
      case AuditGet(auditId) => r := EventAnswer(EventWithId(audit, auditId));
      case WorkflowLog(entry) =>
        workflow := workflow + [entry];
        r := Done;
      case WorkflowHistory(auditId) => r := WorkflowAnswer(HistoryOf(workflow, auditId));
      case WorkflowRecent(limit) => r := WorkflowAnswer(Page(workflow, limit, 0));
    }

    method DoAll(ops: seq<Op>) returns (answers: seq<Answer>)
      modifies this
      ensures answers == Answers(old(Contents()), ops) && Contents() == AfterAll(old(Contents()), ops)
    {
      answers := [];
      ghost var start := Contents();
      for i := 0 to |ops|
        invariant answers + Answers(Contents(), ops[i..]) == Answers(start, ops)
        invariant AfterAll(Contents(), ops[i..]) == AfterAll(start, ops)
      {
        assert ops[i..][1..] == ops[i + 1..];
        var answer := Do(ops[i]);
        answers := answers + [answer];
      }
    }
  }

  /** Every operation reads or writes a file; `None` is a file that does not exist. */
  class JsonFsStorage {
    const codecs: Codecs
    var cslFile: Option<seq<byte>>
    var cslTemporary: Option<seq<byte>>
    var auditFile: Option<seq<byte>>
    var workflowFile: Option<seq<byte>>

    /** What the files read back as. */
    ghost predicate Holds(st: Store)
      reads this
    {
      && AllFaithful(codecs)
      && ReadSnapshot(codecs, cslFile) == Ok(st.csl)
      && FileValues(codecs.event, auditFile) == Ok(st.audit) && WholeLines(auditFile)
      && FileValues(codecs.workflow, workflowFile) == Ok(st.workflow) && WholeLines(workflowFile)
    }

    constructor (codecs: Codecs)
      requires AllFaithful(codecs)
      ensures Holds(Store(None, [], [])) && cslTemporary == None
    {
      this.codecs := codecs;
      cslFile, cslTemporary, auditFile, workflowFile := None, None, None, None;
    }

    /** The whole file through a temporary one and a rename. */
    method WriteAtomic(snapshot: Snapshot)
      modifies this`cslFile, this`cslTemporary
      ensures cslFile == Some(codecs.snapshot.encode(snapshot)) && cslTemporary == None
    {
      cslTemporary := Some([]);
      var bytes := codecs.snapshot.encode(snapshot);
      cslTemporary := Some(bytes);
      cslFile, cslTemporary := cslTemporary, None;
    }

    method Do(op: Op, ghost st: Store) returns (r: Result<Answer, StorageError>)
      requires Holds(st)
      modifies this
      ensures Holds(After(st, op)) && r == Ok(AnswerTo(st, op))
    {
      hide FileValues, ReadSnapshot, WholeLines, RoundTrips, Faithful, MetadataOf, BySource, Get, Page, EventWithId, HistoryOf, Appended;
      match op
      case BulkReplace(entries, fetchedAt, version) =>
        var snapshot := Snapshot(fetchedAt, entries, version);
        WriteAtomic(snapshot);
        SnapshotReadsBack(codecs, snapshot);
        r := Ok(Done);
      case AuditLog(event) =>
        AppendReadsBack(codecs.event, auditFile, event, st.audit);
        auditFile := Some(Appended(codecs.event, auditFile, event));
        r := Ok(Logged(event.auditId));
      case WorkflowLog(entry) =>
        AppendReadsBack(codecs.workflow, workflowFile, entry, st.workflow);
        workflowFile := Some(Appended(codecs.workflow, workflowFile, entry));
        r := Ok(Done);
      case Metadata => r := AskCorpus(op, st);
      case ListAll => r := AskCorpus(op, st);
      case ListBySource(_) => r := AskCorpus(op, st);
      case GetEntry(_) => r := AskCorpus(op, st);
      case AuditRecent(_, _) => r := AskAudit(op, st);
      case AuditGet(_) => r := AskAudit(op, st);
      case WorkflowHistory(_) => r := AskWorkflow(op, st);
      case WorkflowRecent(_) => r := AskWorkflow(op, st);
    }

    /** Queries of the corpus parse the snapshot anew each time. */
    method AskCorpus(op: Op, ghost st: Store) returns (r: Result<Answer, StorageError>)
      requires Holds(st) && (op.Metadata? || op.ListAll? || op.ListBySource? || op.GetEntry?)
      ensures r == Ok(AnswerTo(st, op))
    {
      match ReadSnapshot(codecs, cslFile)
      case Err(e) => r := Err(e);
      case Ok(csl) =>
        match op
        case ListAll => r := Ok(EntriesAnswer(EntriesOf(csl)));
        case ListBySource(source) => r := Ok(EntriesAnswer(BySource(EntriesOf(csl), source)));
        case GetEntry(id) => r := Ok(EntryAnswer(Get(EntriesOf(csl), id)));
        case Metadata =>
          var metadata := None;
          if csl.Some? {
            var sources := TallySources(csl.value.entries);
            metadata := Some(CslMetadata(csl.value.fetchedAt, |csl.value.entries|, sources, csl.value.version));
          }
          r := Ok(MetadataAnswer(metadata));
    }

    method AskAudit(op: Op, ghost st: Store) returns (r: Result<Answer, StorageError>)
      requires Holds(st) && (op.AuditRecent? || op.AuditGet?)
      ensures r == Ok(AnswerTo(st, op))
    {
      var all := ReadLog(codecs.event, auditFile);
      match all
      case Err(e) => r := Err(e);
      case Ok(events) =>
        match op
        case AuditRecent(limit, offset) => r := Ok(EventsAnswer(Page(events, limit, offset)));
        case AuditGet(auditId) => r := Ok(EventAnswer(EventWithId(events, auditId)));
    }

    method AskWorkflow(op: Op, ghost st: Store) returns (r: Result<Answer, StorageError>)
      requires Holds(st) && (op.WorkflowHistory? || op.WorkflowRecent?)
      ensures r == Ok(AnswerTo(st, op))
    {
      var all := ReadLog(codecs.workflow, workflowFile);
      match all
      case Err(e) => r := Err(e);
      case Ok(entries) =>
        match op
        case WorkflowHistory(auditId) => r := Ok(WorkflowAnswer(HistoryOf(entries, auditId)));
        case WorkflowRecent(limit) => r := Ok(WorkflowAnswer(Page(entries, limit, 0)));
    }

    method DoAll(ops: seq<Op>, ghost st: Store) returns (answers: seq<Answer>)
      requires Holds(st)
      modifies this
      ensures Holds(AfterAll(st, ops)) && answers == Answers(st, ops)
    {
      answers := [];
      ghost var now := st;
      for i := 0 to |ops|
        invariant Holds(now) && AfterAll(now, ops[i..]) == AfterAll(st, ops)
        invariant answers + Answers(now, ops[i..]) == Answers(st, ops)
      {
        hide After, AnswerTo, Holds;
        assert ops[i..][1..] == ops[i + 1..];
        var answer := Do(ops[i], now);
        answers := answers + [answer.value];
        now := After(now, ops[i]);
      }
    }
  }

  lemma SnapshotReadsBack(c: Codecs, snapshot: Snapshot)
    requires AllFaithful(c)
    ensures ReadSnapshot(c, Some(c.snapshot.encode(snapshot))) == Ok(Some(snapshot))
  {
  }

  /** From the same contents, any sequence of operations is answered the same by both backends. */
  method BackendsAgree(files: JsonFsStorage, memory: MemoryStorage, ops: seq<Op>)
    returns (fromFiles: seq<Answer>, fromMemory: seq<Answer>)
    requires files.Holds(memory.Contents())
    modifies files, memory
    ensures fromFiles == fromMemory && |fromFiles| == |ops|
    ensures files.Holds(memory.Contents())
  {
    ghost var st := memory.Contents();
    fromFiles := files.DoAll(ops, st);
    fromMemory := memory.DoAll(ops);
    OneAnswerEach(st, ops);
  }

  lemma {:induction false} OneAnswerEach(st: Store, ops: seq<Op>)
    ensures |Answers(st, ops)| == |ops|
    decreases ops
  {
    if ops != [] {
      OneAnswerEach(After(st, ops[0]), ops[1..]);
    }
  }
}

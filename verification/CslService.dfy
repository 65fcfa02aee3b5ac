/** The operations of the service on its files and its engine, undisturbed: each is a run of the refresh protocol. */
module CslService {
  import opened Wrappers
  import opened Corpus
  import opened Refresh

  datatype CacheFile = NoFile | BadFile | IndexFile(corpus: seq<Entry>)

  function CacheFileOf(c: Cache): CacheFile {
    match c
    case NoCache => NoFile
    case BadCache => BadFile
    case Cached(snap) => IndexFile(snap.corpus)
  }

  function WrittenCache(old_: CacheFile, corpus: seq<Entry>, w: CacheWrite): CacheFile {
    match w
    case Written => IndexFile(corpus)
    case Kept => old_
    case Spoiled => BadFile
  }

  function UpdateSteps(corpus: seq<Entry>, w: CacheWrite): seq<Step> {
    WriteSteps(corpus) + [UpdateCaches(w), UpdateSwaps]
  }

  lemma OneStep(s: State, a: Step)
    requires Enabled(s, a)
    ensures IsRun(s, [a]) && RunFrom(s, [a]) == After(s, a)
  {
    hide After, Possible, Enters;
    var t := After(s, a);
    assert [a][1..] == [];
    assert IsRun(t, []) && RunFrom(t, []) == t;
  }

  /** An update that nothing disturbs: all three copies become the fetched corpus, if the cache file is written. */
  lemma WholeUpdate(s: State, corpus: seq<Entry>, w: CacheWrite)
    requires Idle(s) && s.inside == {}
    ensures IsRun(s, UpdateSteps(corpus, w))
    ensures var t := RunFrom(s, UpdateSteps(corpus, w));
            t.csl == Whole(corpus) && t.temporary == Absent && t.cache == CacheAfter(s.cache, Snap(corpus, |s.history|), w)
            && t.service == Up(Snap(corpus, |s.history|), Ready) && t.inside == {} && t.requests == s.requests
  {
    WriteHalf(s, corpus);
    var m := RunFrom(s, WriteSteps(corpus));
    hide IsRun, RunFrom, WriteSteps;
    TwoSteps(m, UpdateCaches(w), UpdateSwaps);
    AppendRuns(s, WriteSteps(corpus), [UpdateCaches(w), UpdateSwaps]);
  }

  lemma FailedUpdate(s: State, corpus: seq<Entry>)
    requires Idle(s) && s.inside == {}
    ensures IsRun(s, [UpdateCreate(corpus), UpdateWriteFails])
    ensures var t := RunFrom(s, [UpdateCreate(corpus), UpdateWriteFails]);
            t.csl == s.csl && t.temporary == Torn && t.cache == s.cache && t.service == s.service
  {
    hide Loses, Recovers, DoubtfulAfter;
    var s1 := After(s, UpdateCreate(corpus));
    assert s1 == s.(service := Up(s.service.ram, UpdateStaging(corpus, false)), temporary := Torn, inside := {Updater},
                    lost := s1.lost, doubtful := s1.doubtful);
    TwoSteps(s, UpdateCreate(corpus), UpdateWriteFails);
  }

  lemma FailedRefresh(s: State, id: nat)
    requires Idle(s) && MaySend(s, id)
    ensures IsRun(s, [RefreshReadFails(id)])
    ensures var t := RunFrom(s, [RefreshReadFails(id)]);
            t.csl == s.csl && t.temporary == s.temporary && t.cache == s.cache && t.service == s.service
  {
    hide Loses, Recovers, DoubtfulAfter;
    OneStep(s, RefreshReadFails(id));
  }

  lemma BuildStep(s: State, cacheReadable: bool, readable: bool, w: CacheWrite)
    requires s.service.Staged?
    ensures var step := BootBuild(cacheReadable, readable, w);
            var ram := BootEngine(s, cacheReadable, readable);
            Enabled(s, step)
            && After(s, step).csl == s.csl && After(s, step).temporary == s.temporary
            && After(s, step).service == Up(ram, Ready)
            && After(s, step).cache == if BootCaches(s, cacheReadable, readable) then CacheAfter(s.cache, ram, w) else s.cache
  {
    hide Loses, Recovers, DoubtfulAfter, BootEngine, BootCaches, CacheAfter;
  }

  class Service {
    var csl: Content
    var temporary: Content
    var cache: CacheFile
    var engine: seq<Entry>

    /** The files and the engine are those of a protocol state. */
    ghost predicate Shows(s: State)
      reads this
    {
      csl == s.csl && temporary == s.temporary && cache == CacheFileOf(s.cache)
      && (Serving(s) ==> engine == s.service.ram.corpus)
    }

    constructor ()
      ensures Shows(INITIAL) && engine == []
    {
      csl, temporary, cache, engine := Absent, Absent, NoFile, [];
    }

    /** `written` says whether the file system lets the write through. */
    method BulkReplace(corpus: seq<Entry>, written: bool)
      modifies this`csl, this`temporary
      ensures if written then csl == Whole(corpus) && temporary == Absent else csl == old(csl) && temporary == Torn
    {
      temporary := Torn;
      if written {
        temporary := Whole(corpus);
        csl, temporary := temporary, Absent;
      }
    }

    method WriteCache(corpus: seq<Entry>, w: CacheWrite)
      modifies this`cache
      ensures cache == WrittenCache(old(cache), corpus, w)
      ensures cache == if w == Written then IndexFile(corpus) else if w == Kept then old(cache) else BadFile
    {
      match w
      case Written => cache := IndexFile(corpus);
      case Kept =>
      case Spoiled => cache := BadFile;
    }

    /** `readable` says whether the file system lets the read of an existing file through. */
    method ListAll(readable: bool) returns (r: Result<seq<Entry>, string>)
      ensures r == if csl.Absent? then Ok([]) else if readable && csl.Whole? then Ok(csl.corpus) else Err("io")
    {
      match csl
      case Absent => r := Ok([]);
      case Torn => r := Err("io");
      case Whole(corpus) => r := if readable then Ok(corpus) else Err("io");
    }

    /** Fetch, replace the snapshot, rebuild and persist the index, swap the engine; a failure leaves the engine alone. */
    method RunUpdate(fetched: Result<seq<Entry>, string>, written: bool, w: CacheWrite, ghost s: State)
      returns (r: Result<nat, string>, ghost steps: seq<Step>)
      requires Shows(s) && Idle(s) && s.inside == {}
      modifies this
      ensures IsRun(s, steps) && Shows(RunFrom(s, steps))
      ensures r.Ok? <==> fetched.Ok? && written
      ensures r.Ok? ==> r.value == |fetched.value| && steps == UpdateSteps(fetched.value, w) && engine == fetched.value
      ensures r.Err? ==> engine == old(engine) && csl == old(csl) && cache == old(cache)
    {
      steps := [];
      if fetched.Err? {
        return Err(fetched.error), steps;
      }
      var corpus := fetched.value;
      BulkReplace(corpus, written);
      if !written {
        steps := [UpdateCreate(corpus), UpdateWriteFails];
        FailedUpdate(s, corpus);
        return Err("write csl.json"), steps;
      }
      WriteCache(corpus, w);
      engine := corpus;
      steps := UpdateSteps(corpus, w);
      WholeUpdate(s, corpus, w);
      hide IsRun, RunFrom, UpdateSteps, After, Possible, Enters;
      r := Ok(|corpus|);
    }

    /** The refresh request: read the snapshot file, rebuild and persist the index, swap the engine. */
    method HandleRefresh(readable: bool, w: CacheWrite, ghost s: State, ghost id: nat)
      returns (r: Result<nat, string>, ghost steps: seq<Step>)
      requires Shows(s) && Idle(s) && MaySend(s, id)
      modifies this
      ensures IsRun(s, steps) && Shows(RunFrom(s, steps))
      ensures r.Ok? <==> old(csl).Absent? || (readable && old(csl).Whole?)
      ensures r.Ok? ==> r.value == |engine| && engine == if old(csl).Whole? then old(csl).corpus else []
      ensures r.Err? ==> engine == old(engine) && cache == old(cache)
      ensures csl == old(csl)
    {
      var entries := ListAll(readable);
      if entries.Err? {
        steps := [RefreshReadFails(id)];
        FailedRefresh(s, id);
        return Err(entries.error), steps;
      }
      WriteCache(entries.value, w);
      engine := entries.value;
      steps := [RefreshReads(id), RefreshCaches(w), RefreshSwaps];
      WholeRefresh(s, id, w);
      hide IsRun, RunFrom, After, Possible, Enters;
      r := Ok(|entries.value|);
    }

    /** First boot: a missing, unreadable or empty corpus is replaced by the seed. */
    method StageEnvironment(seed: seq<Entry>, readable: bool, written: bool, ghost s: State)
      requires Shows(s) && s.service.Down? && s.inside == {}
      modifies this`csl, this`temporary
      ensures var step := BootStage(seed, readable, written); Enabled(s, step) && Shows(After(s, step))
      ensures seed != [] && written && !readable ==> csl == Whole(seed)
    {
      var entries := ListAll(readable);
      if seed != [] && (entries.Err? || entries.value == []) {
        BulkReplace(seed, written);
      }
    }

    /** The cache file first; without a readable one, an engine from a non-empty snapshot file; else an empty one. */
    method BuildEngine(cacheReadable: bool, readable: bool, w: CacheWrite, ghost s: State)
      requires Shows(s) && s.service.Staged?
      modifies this`cache, this`engine
      ensures var step := BootBuild(cacheReadable, readable, w); Enabled(s, step) && Shows(After(s, step))
      ensures engine == if cacheReadable && old(cache).IndexFile? then old(cache).corpus
                        else if readable && csl.Whole? then csl.corpus else []
    {
      hide After, Possible, Enters;
      BuildStep(s, cacheReadable, readable, w);
      if cacheReadable && cache.IndexFile? {
        engine := cache.corpus;
        return;
      }
      var entries := ListAll(readable);
      if entries.Ok? && entries.value != [] {
        engine := entries.value;
        WriteCache(engine, w);
      } else {
        engine := [];
      }
    }

    /** A boot is two steps of the protocol; the snapshot file may be read in each. */
    method Boot(seed: seq<Entry>, readable: bool, written: bool, cacheReadable: bool, readAgain: bool, w: CacheWrite,
                ghost s: State)
      returns (ghost steps: seq<Step>)
      requires Shows(s) && s.service.Down? && s.inside == {}
      modifies this
      ensures steps == [BootStage(seed, readable, written), BootBuild(cacheReadable, readAgain, w)]
      ensures IsRun(s, steps) && Shows(RunFrom(s, steps)) && Idle(RunFrom(s, steps))
    {
      hide IsRun, RunFrom;
      steps := [BootStage(seed, readable, written), BootBuild(cacheReadable, readAgain, w)];
      StageEnvironment(seed, readable, written, s);
      BuildEngine(cacheReadable, readAgain, w, After(s, BootStage(seed, readable, written)));
      TwoSteps(s, BootStage(seed, readable, written), BootBuild(cacheReadable, readAgain, w));
    }
  }
}

/**
  The three copies of the corpus (the snapshot file, the index cache file, the engine in memory) under every
  interleaving of gateway refreshes, service updates, crashes and restarts.
 */
module Refresh {
  import opened Wrappers
  import opened Corpus

  /** A file: missing, partly written, or complete. */
  datatype Content = Absent | Torn | Whole(corpus: seq<Entry>)

  datatype Writer = Gateway(id: nat) | Updater | Seeder

  /** One snapshot that was renamed onto the snapshot file. */
  datatype Write = Write(corpus: seq<Entry>, writer: Writer)

  /** A corpus with the write it came from; -1 is the empty corpus of a missing file. */
  datatype Snap = Snap(corpus: seq<Entry>, at: int)

  datatype Cache = NoCache | BadCache | Cached(snap: Snap)

  /** What the single thread of the service is in the middle of. */
  datatype Doing =
    | Ready
    | RefreshRead(id: nat, snap: Snap)
    | RefreshCached(id: nat, snap: Snap)
    | UpdateStaging(corpus: seq<Entry>, filled: bool)
    | UpdateWritten(snap: Snap)
    | UpdateCached(snap: Snap)

  datatype Service = Down | Staged | Up(ram: Snap, doing: Doing)

  /** One refresh request of the gateway; `at` is the write it made. */
  datatype Request =
    | Staging(corpus: seq<Entry>, filled: bool)
    | WriteFailed
    | Outstanding(at: int)
    | Refreshed(at: int)
    | RefreshFailed(at: int)

  /**
    `lost` says that the cache file may have missed a write for good; only a cache file of the last write ends it.
    `doubtful` says that the service booted from a cache file while a write was lost, or could not read the snapshot
    file, and has installed no engine since.
   */
  datatype State = State(
    history: seq<Write>,
    csl: Content,
    temporary: Content,
    inside: set<Writer>,
    cache: Cache,
    service: Service,
    requests: map<nat, Request>,
    lost: bool,
    doubtful: bool
  )

  /** Writing the cache file may succeed, leave the old file, or leave a broken one; the code ignores which. */
  datatype CacheWrite = Written | Kept | Spoiled

  datatype Step =
    | GatewayCreate(id: nat, corpus: seq<Entry>)
    | GatewayFill(id: nat)
    | GatewayRename(id: nat)
    | GatewayWriteFails(id: nat)
    | GatewayRefreshFails(id: nat)
    | RefreshReads(id: nat)
    | RefreshReadFails(id: nat)
    | RefreshCaches(w: CacheWrite)
    | RefreshSwaps
    | UpdateCreate(corpus: seq<Entry>)
    | UpdateFill
    | UpdateRename
    | UpdateWriteFails
    | UpdateCaches(w: CacheWrite)
    | UpdateSwaps
    | Crash
    | BootStage(seed: seq<Entry>, readable: bool, written: bool)
    | BootBuild(cacheReadable: bool, readable: bool, w: CacheWrite)

  const INITIAL := State([], Absent, Absent, {}, NoCache, Down, map[], false, false)

  function Last(s: State): int {
    |s.history| - 1
  }

  /** Reading the snapshot file: a missing file is an empty corpus, a broken one an error. */
  function ReadCsl(s: State): Option<Snap> {
    match s.csl
    case Absent => Some(Snap([], -1))
    case Torn => None
    case Whole(corpus) => Some(Snap(corpus, Last(s)))
  }

  /** The same at boot, where the read of an existing file may fail. */
  function BootRead(s: State, readable: bool): Option<Snap> {
    if readable || s.csl.Absent? then ReadCsl(s) else None
  }

  function CacheAfter(c: Cache, snap: Snap, w: CacheWrite): Cache {
    match w
    case Written => Cached(snap)
    case Kept => c
    case Spoiled => BadCache
  }

  predicate Serving(s: State) {
    s.service.Up?
  }

  predicate Idle(s: State) {
    s.service.Up? && s.service.doing.Ready?
  }

  predicate MaySend(s: State, id: nat) {
    id in s.requests && (s.requests[id].Outstanding? || s.requests[id].RefreshFailed?)
  }

  /** At boot the seed is written when the snapshot file is missing or empty or cannot be read. */
  predicate NeedsSeed(s: State, seed: seq<Entry>, readable: bool) {
    seed != [] && (BootRead(s, readable).None? || BootRead(s, readable).value.corpus == [])
  }

  /** May the step happen? A rename needs the temporary file; without it the write fails. */
  predicate Possible(s: State, step: Step) {
    match step
    case GatewayCreate(id, _) => id !in s.requests
    case GatewayFill(id) => id in s.requests && s.requests[id].Staging? && !s.requests[id].filled
    case GatewayRename(id) => id in s.requests && s.requests[id].Staging? && s.requests[id].filled && !s.temporary.Absent?
    case GatewayWriteFails(id) => id in s.requests && s.requests[id].Staging?
    case GatewayRefreshFails(id) => id in s.requests && s.requests[id].Outstanding?
    case RefreshReads(id) => Idle(s) && MaySend(s, id) && ReadCsl(s).Some?
    case RefreshReadFails(id) => Idle(s) && MaySend(s, id)
    case RefreshCaches(_) => Serving(s) && s.service.doing.RefreshRead?
    case RefreshSwaps => Serving(s) && s.service.doing.RefreshCached?
    case UpdateCreate(_) => Idle(s)
    case UpdateFill => Serving(s) && s.service.doing.UpdateStaging? && !s.service.doing.filled
    case UpdateRename => Serving(s) && s.service.doing.UpdateStaging? && s.service.doing.filled && !s.temporary.Absent?
    case UpdateWriteFails => Serving(s) && s.service.doing.UpdateStaging?
    case UpdateCaches(_) => Serving(s) && s.service.doing.UpdateWritten?
    case UpdateSwaps => Serving(s) && s.service.doing.UpdateCached?
    case Crash => !s.service.Down?
    case BootStage(_, _, _) => s.service.Down?
    case BootBuild(_, _, _) => s.service.Staged?
  }

  /** Does the step begin an atomic write of the snapshot file? */
  predicate Enters(s: State, step: Step) {
    step.GatewayCreate? || step.UpdateCreate? || (step.BootStage? && NeedsSeed(s, step.seed, step.readable))
  }

  /** Only one writer at a time is inside the atomic write. */
  predicate Enabled(s: State, step: Step) {
    Possible(s, step) && (Enters(s, step) ==> s.inside == {})
  }

  function WithDoing(s: State, doing: Doing): State
    requires Serving(s)
  {
    s.(service := Up(s.service.ram, doing))
  }

  function WithRequest(s: State, id: nat, r: Request): State {
    s.(requests := s.requests[id := r])
  }

  /** A failed refresh is noted only while somebody still waits for it. */
  function FailRequest(s: State, id: nat): State
    requires MaySend(s, id)
  {
    WithRequest(s, id, RefreshFailed(s.requests[id].at))
  }

  /** The rename of the temporary file onto the snapshot file. */
  function Renamed(s: State, corpus: seq<Entry>, writer: Writer): State {
    s.(csl := s.temporary, temporary := Absent, inside := s.inside - {writer}, history := s.history + [Write(corpus, writer)])
  }

  /** Does a boot take the engine of the cache file? */
  predicate UsesCache(s: State, cacheReadable: bool) {
    cacheReadable && s.cache.Cached?
  }

  /** Otherwise it takes one of the snapshot file, or an empty one if that cannot be read either. */
  function BootEngine(s: State, cacheReadable: bool, readable: bool): Snap {
    if UsesCache(s, cacheReadable) then s.cache.snap
    else match BootRead(s, readable)
      case None => Snap([], -1)
      case Some(snap) => snap
  }

  /** It caches the engine if that is new and not empty. */
  predicate BootCaches(s: State, cacheReadable: bool, readable: bool) {
    !UsesCache(s, cacheReadable) && BootRead(s, readable).Some? && BootRead(s, readable).value.corpus != []
  }

  /** After these events a cache file may stay behind the snapshot file with nobody left to write it again. */
  predicate Loses(s: State, step: Step) {
    match step
    case RefreshCaches(w) => !w.Written?
    case UpdateCaches(w) => !w.Written?
    case BootBuild(cacheReadable, readable, w) =>
      !UsesCache(s, cacheReadable)
      && (BootRead(s, readable).None? || (BootCaches(s, cacheReadable, readable) && !w.Written?))
    case Crash => Serving(s) && s.service.doing.UpdateWritten?
    case BootStage(seed, readable, written) => NeedsSeed(s, seed, readable) && written && s.cache.Cached?
    case _ => false
  }

  /** The index of the last write is written to the cache file. */
  predicate Recovers(s: State, step: Step)
    requires Possible(s, step)
  {
    match step
    case RefreshCaches(w) => w.Written? && s.service.doing.snap.at == Last(s)
    case UpdateCaches(w) => w.Written? && s.service.doing.snap.at == Last(s)
    case BootBuild(cacheReadable, readable, w) => BootCaches(s, cacheReadable, readable) && w.Written?
    case _ => false
  }

  predicate DoubtfulAfter(s: State, step: Step) {
    match step
    case BootBuild(cacheReadable, readable, _) =>
      if UsesCache(s, cacheReadable) then s.lost else BootRead(s, readable).None?
    case RefreshSwaps => false
    case UpdateSwaps => false
    case _ => s.doubtful
  }

  function After(s: State, step: Step): State
    requires Possible(s, step)
  {
    Effect(s, step).(lost := Loses(s, step) || (s.lost && !Recovers(s, step)), doubtful := DoubtfulAfter(s, step))
  }

  function Effect(s: State, step: Step): State
    requires Possible(s, step)
  {
    match step
    case GatewayCreate(id, corpus) =>
      WithRequest(s, id, Staging(corpus, false)).(temporary := Torn, inside := s.inside + {Gateway(id)})
    case GatewayFill(id) => WithRequest(s, id, s.requests[id].(filled := true)).(temporary := Whole(s.requests[id].corpus))
    case GatewayRename(id) =>
      WithRequest(Renamed(s, s.requests[id].corpus, Gateway(id)), id, Outstanding(|s.history|))
    case GatewayWriteFails(id) => WithRequest(s, id, WriteFailed).(inside := s.inside - {Gateway(id)})
    case GatewayRefreshFails(id) => WithRequest(s, id, RefreshFailed(s.requests[id].at))
    case RefreshReads(id) => WithDoing(s, RefreshRead(id, ReadCsl(s).value))
    case RefreshReadFails(id) => FailRequest(s, id)
    case RefreshCaches(w) =>
      WithDoing(s, RefreshCached(s.service.doing.id, s.service.doing.snap))
      .(cache := CacheAfter(s.cache, s.service.doing.snap, w))
    case RefreshSwaps =>
      var id := s.service.doing.id;
      var swapped := s.(service := Up(s.service.doing.snap, Ready));
      if id in s.requests && s.requests[id].Outstanding? then WithRequest(swapped, id, Refreshed(s.requests[id].at)) else swapped
    case UpdateCreate(corpus) => WithDoing(s, UpdateStaging(corpus, false)).(temporary := Torn, inside := s.inside + {Updater})
    case UpdateFill =>
      WithDoing(s, s.service.doing.(filled := true)).(temporary := Whole(s.service.doing.corpus))
    case UpdateRename =>
      WithDoing(Renamed(s, s.service.doing.corpus, Updater), UpdateWritten(Snap(s.service.doing.corpus, |s.history|)))
    case UpdateWriteFails => WithDoing(s, Ready).(inside := s.inside - {Updater})
    case UpdateCaches(w) =>
      WithDoing(s, UpdateCached(s.service.doing.snap))
      .(cache := CacheAfter(s.cache, s.service.doing.snap, w))
    case UpdateSwaps => s.(service := Up(s.service.doing.snap, Ready))
    case Crash => s.(service := Down, inside := s.inside - {Updater})
    case BootStage(seed, readable, written) =>
      (if !NeedsSeed(s, seed, readable) then s
       else if written then Renamed(s.(temporary := Whole(seed)), seed, Seeder)
       else s.(temporary := Torn)).(service := Staged)
    case BootBuild(cacheReadable, readable, w) =>
      var ram := BootEngine(s, cacheReadable, readable);
      s.(service := Up(ram, Ready),
         cache := if BootCaches(s, cacheReadable, readable) then CacheAfter(s.cache, ram, w) else s.cache)
  }

  // ----- the invariant -----

  predicate ValidSnap(s: State, snap: Snap) {
    && -1 <= snap.at < |s.history|
    && snap.corpus == if snap.at < 0 then [] else s.history[snap.at].corpus
  }

  /** The snapshot file is always the last complete write. */
  predicate FileIsLast(s: State) {
    s.csl == if s.history == [] then Absent else Whole(s.history[Last(s)].corpus)
  }

  /** Who is inside the atomic write. */
  ghost predicate InsideMatches(s: State) {
    && (forall id :: Gateway(id) in s.inside <==> id in s.requests && s.requests[id].Staging?)
    && (Updater in s.inside <==> Serving(s) && s.service.doing.UpdateStaging?)
    && Seeder !in s.inside
  }

  ghost predicate AtMostOneInside(s: State) {
    forall v, w :: v in s.inside && w in s.inside ==> v == w
  }

  /** What the writer inside has filled in is complete. */
  ghost predicate FilledIsWhole(s: State) {
    && (forall id :: id in s.requests && s.requests[id].Staging? && s.requests[id].filled ==>
          s.temporary == Whole(s.requests[id].corpus))
    && (Serving(s) && s.service.doing.UpdateStaging? && s.service.doing.filled ==>
          s.temporary == Whole(s.service.doing.corpus))
  }

  ghost predicate OneInside(s: State) {
    InsideMatches(s) && AtMostOneInside(s) && FilledIsWhole(s)
  }

  /** The write of a request is recorded in the history. */
  ghost predicate RequestsRecorded(s: State) {
    forall id :: id in s.requests && (s.requests[id].Outstanding? || s.requests[id].Refreshed? || s.requests[id].RefreshFailed?) ==>
      0 <= s.requests[id].at < |s.history| && s.history[s.requests[id].at].writer == Gateway(id)
  }

  predicate KnownWriter(s: State, k: nat)
    requires k < |s.history|
  {
    s.history[k].writer.Gateway? ==>
      var id := s.history[k].writer.id;
      id in s.requests && (s.requests[id] == Outstanding(k) || s.requests[id] == Refreshed(k) || s.requests[id] == RefreshFailed(k))
  }

  /** Every write of a gateway belongs to the request that made it. */
  ghost predicate WritersKnown(s: State) {
    forall k: nat :: k < |s.history| ==> KnownWriter(s, k)
  }

  /** The last write is of a gateway whose refresh has not been answered with success. */
  predicate LastIsUnacknowledged(s: State) {
    && Last(s) >= 0 && s.history[Last(s)].writer.Gateway?
    && var id := s.history[Last(s)].writer.id;
       id in s.requests && (s.requests[id] == Outstanding(Last(s)) || s.requests[id] == RefreshFailed(Last(s)))
  }

  /** The snapshot the service is about to install. */
  function Pending(s: State): Option<Snap> {
    if !Serving(s) then None
    else match s.service.doing
      case RefreshRead(_, snap) => Some(snap)
      case RefreshCached(_, snap) => Some(snap)
      case UpdateWritten(snap) => Some(snap)
      case UpdateCached(snap) => Some(snap)
      case _ => None
  }

  /** The snapshot of an update is in the file and its engine is not yet installed. */
  predicate UpdateMidway(s: State) {
    Serving(s) && (s.service.doing.UpdateWritten? || s.service.doing.UpdateCached?)
  }

  /** The engine of a refresh is in the cache file and not yet installed. */
  predicate RefreshMidway(s: State) {
    Serving(s) && s.service.doing.RefreshCached?
  }

  /** Every engine, in memory, in the cache or about to be installed, is one complete snapshot. */
  predicate EnginesValid(s: State) {
    && (Serving(s) ==> ValidSnap(s, s.service.ram))
    && (s.cache.Cached? ==> ValidSnap(s, s.cache.snap))
    && (Pending(s).Some? ==> ValidSnap(s, Pending(s).value))
  }

  /** An engine is replaced by one no older; if that is outdated already, a gateway is still to be answered. */
  predicate PendingIsNewer(s: State) {
    Pending(s).Some? ==>
      s.service.ram.at <= Pending(s).value.at && (Pending(s).value.at < Last(s) ==> LastIsUnacknowledged(s))
  }

  /** A refresh that is being handled reads the snapshot of its own request or a later one. */
  predicate RefreshSeesOwnWrite(s: State) {
    Serving(s) && (s.service.doing.RefreshRead? || s.service.doing.RefreshCached?) ==>
      var id := s.service.doing.id;
      id in s.requests && (s.requests[id].Outstanding? || s.requests[id].RefreshFailed?)
      && s.requests[id].at <= s.service.doing.snap.at
  }

  /** The engine is of the last write, or there is somebody who has still to bring it in. */
  predicate Follows(s: State)
    requires Serving(s)
  {
    s.service.ram.at < Last(s) ==> LastIsUnacknowledged(s) || UpdateMidway(s)
  }

  predicate Coherent(s: State) {
    Serving(s) && !s.doubtful ==> Follows(s)
  }

  /** Why the cache file may be behind the snapshot file. */
  predicate CacheExcused(s: State) {
    LastIsUnacknowledged(s) || (Serving(s) && s.service.doing.UpdateWritten?) || s.lost
  }

  predicate LastIsEmpty(s: State) {
    Last(s) < 0 || s.history[Last(s)].corpus == []
  }

  /** A readable cache file is of the last write, and there is one unless there is nothing to search. */
  predicate CacheFollows(s: State) {
    && (s.cache.Cached? && s.cache.snap.at < Last(s) ==> CacheExcused(s))
    && (s.cache.NoCache? && Serving(s) ==> LastIsEmpty(s) || CacheExcused(s))
    && (s.cache.BadCache? ==> s.lost)
  }

  /** An engine that is about to be installed is in the cache file, unless that was lost. */
  predicate CachedFirst(s: State) {
    (RefreshMidway(s) || (Serving(s) && s.service.doing.UpdateCached?)) ==>
      s.lost || s.cache == Cached(s.service.doing.snap)
  }

  ghost predicate Inv(s: State) {
    && FileIsLast(s) && OneInside(s) && RequestsRecorded(s) && WritersKnown(s)
    && EnginesValid(s) && PendingIsNewer(s) && RefreshSeesOwnWrite(s) && Coherent(s) && CacheFollows(s) && CachedFirst(s)
  }

  /** A sequence of steps, each enabled where it happens. */
  ghost predicate IsRun(s: State, steps: seq<Step>)
    decreases steps
  {
    steps != [] ==> Enabled(s, steps[0]) && IsRun(After(s, steps[0]), steps[1..])
  }

  ghost function RunFrom(s: State, steps: seq<Step>): State
    requires IsRun(s, steps)
    decreases steps
  {
    if steps == [] then s else RunFrom(After(s, steps[0]), steps[1..])
  }

  lemma InitialState()
    ensures Inv(INITIAL)
  {
  }

  predicate ByGateway(step: Step) {
    step.GatewayCreate? || step.GatewayFill? || step.GatewayRename? || step.GatewayWriteFails? || step.GatewayRefreshFails?
  }

  predicate ByUpdate(step: Step) {
    step.UpdateCreate? || step.UpdateFill? || step.UpdateRename? || step.UpdateWriteFails? || step.UpdateCaches?
    || step.UpdateSwaps?
  }

  predicate ByBoot(step: Step) {
    step.Crash? || step.BootStage? || step.BootBuild?
  }

  lemma GatewayKeepsFile(s: State, step: Step)
    requires FileIsLast(s) && FilledIsWhole(s) && Enabled(s, step) && ByGateway(step)
    ensures FileIsLast(After(s, step))
  {
    hide Loses, Recovers, DoubtfulAfter, BootEngine, BootCaches, CacheAfter;
  }

  lemma UpdateKeepsFile(s: State, step: Step)
    requires FileIsLast(s) && FilledIsWhole(s) && Enabled(s, step) && ByUpdate(step)
    ensures FileIsLast(After(s, step))
  {
    hide Loses, Recovers, DoubtfulAfter, BootEngine, BootCaches, CacheAfter;
  }

  lemma RestKeepsFile(s: State, step: Step)
    requires FileIsLast(s) && FilledIsWhole(s) && Enabled(s, step) && !ByGateway(step) && !ByUpdate(step)
    ensures FileIsLast(After(s, step))
  {
    hide Loses, Recovers, DoubtfulAfter, BootEngine, BootCaches, CacheAfter;
  }

  lemma ServiceKeepsFile(s: State, step: Step)
    requires FileIsLast(s) && FilledIsWhole(s) && Enabled(s, step) && !ByGateway(step)
    ensures FileIsLast(After(s, step))
  {
    hide After, Possible, Enters, FileIsLast, FilledIsWhole;
    if ByUpdate(step) {
      UpdateKeepsFile(s, step);
    } else {
      RestKeepsFile(s, step);
    }
  }

  lemma GatewayKeepsInside(s: State, step: Step)
    requires InsideMatches(s) && Enabled(s, step) && ByGateway(step)
    ensures InsideMatches(After(s, step))
  {
    hide NeedsSeed, Loses, Recovers, DoubtfulAfter, BootEngine, BootCaches, CacheAfter;
  }

  lemma UpdateKeepsInside(s: State, step: Step)
    requires InsideMatches(s) && Enabled(s, step) && ByUpdate(step)
    ensures InsideMatches(After(s, step))
  {
    hide Loses, Recovers, DoubtfulAfter, CacheAfter, Enters;
  }

  lemma ServiceKeepsInside(s: State, step: Step)
    requires InsideMatches(s) && Enabled(s, step) && !ByGateway(step)
    ensures InsideMatches(After(s, step))
  {
    if ByUpdate(step) {
      UpdateKeepsInside(s, step);
    } else {
      hide NeedsSeed, Loses, Recovers, DoubtfulAfter, BootEngine, BootCaches, CacheAfter, ReadCsl, Enters;
    }
  }

  lemma StepKeepsOne(s: State, step: Step)
    requires InsideMatches(s) && AtMostOneInside(s) && Enabled(s, step)
    ensures AtMostOneInside(After(s, step))
  {
    hide Loses, Recovers, DoubtfulAfter, BootEngine, BootCaches, CacheAfter, InsideMatches;
  }

  lemma GatewayKeepsFilled(s: State, step: Step)
    requires OneInside(s) && Enabled(s, step) && ByGateway(step)
    ensures FilledIsWhole(After(s, step))
  {
    hide Loses, Recovers, DoubtfulAfter, BootEngine, BootCaches, CacheAfter, NeedsSeed;
  }

  lemma UpdateKeepsFilled(s: State, step: Step)
    requires OneInside(s) && Enabled(s, step) && ByUpdate(step)
    ensures FilledIsWhole(After(s, step))
  {
    hide Loses, Recovers, DoubtfulAfter, BootEngine, BootCaches, CacheAfter, NeedsSeed;
  }

  lemma RestKeepsFilled(s: State, step: Step)
    requires OneInside(s) && Enabled(s, step) && !ByGateway(step) && !ByUpdate(step)
    ensures FilledIsWhole(After(s, step))
  {
    hide Loses, Recovers, DoubtfulAfter, BootEngine, BootCaches, CacheAfter, NeedsSeed;
  }

  lemma ServiceKeepsFilled(s: State, step: Step)
    requires OneInside(s) && Enabled(s, step) && !ByGateway(step)
    ensures FilledIsWhole(After(s, step))
  {
    hide After, Possible, Enters, FilledIsWhole, OneInside;
    if ByUpdate(step) {
      UpdateKeepsFilled(s, step);
    } else {
      RestKeepsFilled(s, step);
    }
  }

  lemma GatewayKeepsRequests(s: State, step: Step)
    requires RequestsRecorded(s) && Enabled(s, step) && ByGateway(step)
    ensures RequestsRecorded(After(s, step))
  {
    hide Loses, Recovers, DoubtfulAfter, BootEngine, BootCaches, CacheAfter, NeedsSeed, ReadCsl;
  }

  lemma ServiceKeepsRequests(s: State, step: Step)
    requires RequestsRecorded(s) && Enabled(s, step) && !ByGateway(step)
    ensures RequestsRecorded(After(s, step))
  {
    hide Loses, Recovers, DoubtfulAfter, BootEngine, BootCaches, CacheAfter, NeedsSeed, ReadCsl;
  }

  lemma GatewayKeepsWriters(s: State, step: Step)
    requires WritersKnown(s) && RequestsRecorded(s) && Enabled(s, step) && ByGateway(step)
    ensures WritersKnown(After(s, step))
  {
    hide Loses, Recovers, DoubtfulAfter;
    forall k: nat | k < |After(s, step).history|
      ensures KnownWriter(After(s, step), k)
    {
      assert k < |s.history| ==> KnownWriter(s, k);
    }
  }

  lemma ServiceKeepsWriter(s: State, step: Step, k: nat)
    requires KnownHere(s, k) && RefreshSeesOwnWrite(s) && Enabled(s, step) && !ByGateway(step)
    requires k < |After(s, step).history|
    ensures KnownWriter(After(s, step), k)
  {
    hide Loses, Recovers, DoubtfulAfter, NeedsSeed, BootEngine, BootCaches, CacheAfter, ReadCsl, Enters;
  }

  predicate KnownHere(s: State, k: nat) {
    k < |s.history| ==> KnownWriter(s, k)
  }

  lemma ServiceKeepsWriters(s: State, step: Step)
    requires WritersKnown(s) && RefreshSeesOwnWrite(s) && Enabled(s, step) && !ByGateway(step)
    ensures WritersKnown(After(s, step))
  {
    hide After, Possible, Enters, KnownWriter, RefreshSeesOwnWrite;
    forall k: nat | k < |After(s, step).history|
      ensures KnownWriter(After(s, step), k)
    {
      ServiceKeepsWriter(s, step, k);
    }
  }

  lemma StepKeepsSnaps(s: State, step: Step, snap: Snap)
    requires Enabled(s, step) && ValidSnap(s, snap)
    ensures ValidSnap(After(s, step), snap)
  {
    hide Loses, Recovers, DoubtfulAfter, NeedsSeed, BootEngine, BootCaches, CacheAfter, Enters;
    assert s.history <= After(s, step).history;
  }

  lemma ReadIsValid(s: State)
    requires FileIsLast(s) && ReadCsl(s).Some?
    ensures ValidSnap(s, ReadCsl(s).value)
  {
  }

  lemma NewestIsValid(s: State, snap: Snap)
    requires s.history != [] && snap == Snap(s.history[Last(s)].corpus, Last(s))
    ensures ValidSnap(s, snap)
  {
  }

  lemma StepKeepsOldSnaps(s: State, step: Step)
    requires EnginesValid(s) && FileIsLast(s) && Enabled(s, step)
    ensures var t := After(s, step);
            (Serving(s) ==> ValidSnap(t, s.service.ram)) && (s.cache.Cached? ==> ValidSnap(t, s.cache.snap))
            && (Pending(s).Some? ==> ValidSnap(t, Pending(s).value)) && (ReadCsl(s).Some? ==> ValidSnap(t, ReadCsl(s).value))
            && ValidSnap(t, Snap([], -1))
  {
    hide After, Possible, Enters;
    if Serving(s) {
      StepKeepsSnaps(s, step, s.service.ram);
    }
    if s.cache.Cached? {
      StepKeepsSnaps(s, step, s.cache.snap);
    }
    if Pending(s).Some? {
      StepKeepsSnaps(s, step, Pending(s).value);
    }
    if ReadCsl(s).Some? {
      ReadIsValid(s);
      StepKeepsSnaps(s, step, ReadCsl(s).value);
    }
  }

  lemma StepKeepsRam(s: State, step: Step)
    requires EnginesValid(s) && FileIsLast(s) && Enabled(s, step)
    ensures Serving(After(s, step)) ==> ValidSnap(After(s, step), After(s, step).service.ram)
  {
    StepKeepsOldSnaps(s, step);
    hide Loses, Recovers, DoubtfulAfter, NeedsSeed, BootCaches, CacheAfter, ReadCsl, ValidSnap, EnginesValid, FileIsLast, Enters;
  }

  lemma StepKeepsCacheValid(s: State, step: Step)
    requires EnginesValid(s) && FileIsLast(s) && Enabled(s, step)
    ensures After(s, step).cache.Cached? ==> ValidSnap(After(s, step), After(s, step).cache.snap)
  {
    StepKeepsOldSnaps(s, step);
    hide Loses, Recovers, DoubtfulAfter, NeedsSeed, ReadCsl, ValidSnap, EnginesValid, FileIsLast, Enters;
  }

  lemma StepKeepsPendingValid(s: State, step: Step)
    requires EnginesValid(s) && FileIsLast(s) && Enabled(s, step)
    ensures Pending(After(s, step)).Some? ==> ValidSnap(After(s, step), Pending(After(s, step)).value)
  {
    StepKeepsOldSnaps(s, step);
    if step.UpdateRename? {
      NewestIsValid(After(s, step), Snap(s.service.doing.corpus, |s.history|));
    }
    hide Loses, Recovers, DoubtfulAfter, NeedsSeed, BootEngine, BootCaches, CacheAfter, ReadCsl, ValidSnap, EnginesValid, FileIsLast, Enters;
  }

  lemma LastKnown(s: State)
    requires WritersKnown(s)
    ensures Last(s) >= 0 ==> KnownWriter(s, Last(s))
  {
  }

  lemma GatewayKeepsPending(s: State, step: Step)
    requires Inv(s) && Enabled(s, step) && ByGateway(step)
    ensures PendingIsNewer(After(s, step))
  {
    hide OneInside, Coherent, CacheFollows, CachedFirst, NeedsSeed, Loses, Recovers, DoubtfulAfter, BootEngine, BootCaches, CacheAfter, WritersKnown, RequestsRecorded, ValidSnap, FileIsLast, Enters;
    LastKnown(s);
  }

  lemma ServiceKeepsPending(s: State, step: Step)
    requires Inv(s) && Enabled(s, step) && !ByGateway(step)
    ensures PendingIsNewer(After(s, step))
  {
    hide OneInside, Coherent, CacheFollows, CachedFirst, NeedsSeed, Loses, Recovers, DoubtfulAfter, BootEngine, BootCaches, CacheAfter, WritersKnown, RequestsRecorded, Enters;
    LastKnown(s);
  }

  lemma GatewayKeepsOwnWrite(s: State, step: Step)
    requires RefreshSeesOwnWrite(s) && RequestsRecorded(s) && FileIsLast(s) && Enabled(s, step) && ByGateway(step)
    ensures RefreshSeesOwnWrite(After(s, step))
  {
    hide Loses, Recovers, DoubtfulAfter, BootEngine, BootCaches, CacheAfter, NeedsSeed;
  }

  lemma ServiceKeepsOwnWrite(s: State, step: Step)
    requires RefreshSeesOwnWrite(s) && RequestsRecorded(s) && FileIsLast(s) && Enabled(s, step) && !ByGateway(step)
    ensures RefreshSeesOwnWrite(After(s, step))
  {
    hide Loses, Recovers, DoubtfulAfter, BootEngine, BootCaches, CacheAfter, NeedsSeed;
  }

  lemma GatewayKeepsCoherence(s: State, step: Step)
    requires Inv(s) && Enabled(s, step) && ByGateway(step)
    ensures Coherent(After(s, step))
  {
    hide OneInside, RequestsRecorded, EnginesValid;
  }

  lemma ServiceKeepsCoherence(s: State, step: Step)
    requires Inv(s) && Enabled(s, step) && !ByGateway(step)
    ensures Coherent(After(s, step))
  {
    hide OneInside, RequestsRecorded, EnginesValid;
  }

  lemma StepKeepsCachedFirst(s: State, step: Step)
    requires CachedFirst(s) && Enabled(s, step)
    ensures CachedFirst(After(s, step))
  {
    hide NeedsSeed, BootEngine, LastIsUnacknowledged;
  }

  lemma GatewayKeepsCache(s: State, step: Step)
    requires Inv(s) && Enabled(s, step) && ByGateway(step)
    ensures CacheFollows(After(s, step))
  {
    hide OneInside, RequestsRecorded, EnginesValid, Coherent, DoubtfulAfter;
  }

  lemma UpdateKeepsCache(s: State, step: Step)
    requires Inv(s) && Enabled(s, step) && ByUpdate(step)
    ensures CacheFollows(After(s, step))
  {
    hide OneInside, RequestsRecorded, EnginesValid, Coherent, DoubtfulAfter, RefreshSeesOwnWrite;
  }

  lemma BootKeepsCache(s: State, step: Step)
    requires Inv(s) && Enabled(s, step) && ByBoot(step)
    ensures CacheFollows(After(s, step))
  {
    FileReads(s);
    hide OneInside, RequestsRecorded, WritersKnown, EnginesValid, Coherent, DoubtfulAfter, RefreshSeesOwnWrite, PendingIsNewer;
  }

  lemma RefreshKeepsCache(s: State, step: Step)
    requires Inv(s) && Enabled(s, step)
    requires step.RefreshReads? || step.RefreshReadFails? || step.RefreshCaches?
    ensures CacheFollows(After(s, step))
  {
    hide OneInside, RequestsRecorded, WritersKnown, Coherent, DoubtfulAfter, FileIsLast, CachedFirst, EnginesValid;
  }

  /** The answer to the last writer finds its write in the cache file, unless that was lost. */
  lemma SwapKeepsCache(s: State)
    requires Inv(s) && Enabled(s, RefreshSwaps)
    ensures CacheFollows(After(s, RefreshSwaps))
  {
    hide OneInside, RequestsRecorded, WritersKnown, Coherent, DoubtfulAfter, FileIsLast;
  }

  lemma ServiceKeepsCache(s: State, step: Step)
    requires Inv(s) && Enabled(s, step) && !ByGateway(step)
    ensures CacheFollows(After(s, step))
  {
    hide Inv, After, Possible, Enters, CacheFollows;
    if ByUpdate(step) {
      UpdateKeepsCache(s, step);
    } else if ByBoot(step) {
      BootKeepsCache(s, step);
    } else if step.RefreshSwaps? {
      SwapKeepsCache(s);
    } else {
      RefreshKeepsCache(s, step);
    }
  }

  lemma StepKeepsInv(s: State, step: Step)
    requires Inv(s) && Enabled(s, step)
    ensures Inv(After(s, step))
  {
    hide FileIsLast, InsideMatches, AtMostOneInside, FilledIsWhole, RequestsRecorded, WritersKnown, PendingIsNewer, RefreshSeesOwnWrite, Coherent, CacheFollows, CachedFirst, Possible, Enters, After, ValidSnap, ByGateway;
    StepKeepsOne(s, step);
    StepKeepsRam(s, step);
    StepKeepsCacheValid(s, step);
    StepKeepsPendingValid(s, step);
    StepKeepsCachedFirst(s, step);
    if ByGateway(step) {
      GatewayKeepsFile(s, step);
      GatewayKeepsInside(s, step);
      GatewayKeepsFilled(s, step);
      GatewayKeepsRequests(s, step);
      GatewayKeepsWriters(s, step);
      GatewayKeepsPending(s, step);
      GatewayKeepsOwnWrite(s, step);
      GatewayKeepsCoherence(s, step);
      GatewayKeepsCache(s, step);
    } else {
      ServiceKeepsFile(s, step);
      ServiceKeepsInside(s, step);
      ServiceKeepsFilled(s, step);
      ServiceKeepsRequests(s, step);
      ServiceKeepsWriters(s, step);
      ServiceKeepsPending(s, step);
      ServiceKeepsOwnWrite(s, step);
      ServiceKeepsCoherence(s, step);
      ServiceKeepsCache(s, step);
    }
  }

  // ----- every run -----

  lemma {:induction false} RunKeepsInv(s: State, steps: seq<Step>)
    requires Inv(s) && IsRun(s, steps)
    ensures Inv(RunFrom(s, steps))
    decreases steps
  {
    if steps != [] {
      hide Inv, Possible, Enters, After;
      StepKeepsInv(s, steps[0]);
      RunKeepsInv(After(s, steps[0]), steps[1..]);
    }
  }

  /**
    Safety of every interleaving: the snapshot file is never half-written, the engine in memory is one complete
    snapshot that was once in that file, and if it is not the present one, then the gateway that wrote the present one
    has not been answered with success, or an update is before its swap, or the service booted in doubt and has
    installed no engine since.
   */
  lemma Coherence(steps: seq<Step>)
    requires IsRun(INITIAL, steps)
    ensures var s := RunFrom(INITIAL, steps);
            ReadCsl(s).Some?
            && (Serving(s) ==>
                  (s.service.ram.corpus == [] || exists k :: 0 <= k < |s.history| && s.history[k].corpus == s.service.ram.corpus)
                  && (s.service.ram.corpus != ReadCsl(s).value.corpus ==>
                        LastIsUnacknowledged(s) || UpdateMidway(s) || s.doubtful))
  {
    InitialState();
    RunKeepsInv(INITIAL, steps);
    hide IsRun, RunFrom;
    InvMeans(RunFrom(INITIAL, steps));
  }

  lemma InvMeans(s: State)
    requires Inv(s)
    ensures ReadCsl(s).Some?
    ensures Serving(s) ==>
      (s.service.ram.corpus == [] || exists k :: 0 <= k < |s.history| && s.history[k].corpus == s.service.ram.corpus)
      && (Follows(s) && s.service.ram.corpus != ReadCsl(s).value.corpus ==> LastIsUnacknowledged(s) || UpdateMidway(s))
      && (!s.doubtful ==> Follows(s))
  {
    hide OneInside, RequestsRecorded, WritersKnown, PendingIsNewer, CacheFollows, CachedFirst, RefreshSeesOwnWrite;
  }

  lemma StepKeepsFollowing(s: State, step: Step)
    requires Inv(s) && Enabled(s, step) && Serving(s) && Follows(s) && !step.Crash?
    ensures Serving(After(s, step)) && Follows(After(s, step))
  {
    hide OneInside, RequestsRecorded, EnginesValid, CacheFollows, CachedFirst, Coherent, Loses, Recovers, DoubtfulAfter, CacheAfter, FileIsLast, Enters;
  }

  lemma {:induction false} RunKeepsFollowing(s: State, steps: seq<Step>)
    requires Inv(s) && Serving(s) && Follows(s) && IsRun(s, steps) && Crash !in steps
    ensures Serving(RunFrom(s, steps)) && Follows(RunFrom(s, steps)) && Inv(RunFrom(s, steps))
    decreases steps
  {
    if steps != [] {
      hide Inv, Possible, Enters, After, Follows;
      assert steps[0] in steps;
      StepKeepsInv(s, steps[0]);
      StepKeepsFollowing(s, steps[0]);
      RunKeepsFollowing(After(s, steps[0]), steps[1..]);
    }
  }

  /**
    While the service runs, nothing but a write that nobody has brought in yet can make its engine differ: not a cache
    file that cannot be written, nor anything that went wrong before. It is enough that the engine follows once.
   */
  lemma CrashFreeCoherence(steps: seq<Step>, more: seq<Step>)
    requires IsRun(INITIAL, steps) && IsRun(RunFrom(INITIAL, steps), more) && Crash !in more
    requires Serving(RunFrom(INITIAL, steps)) && Follows(RunFrom(INITIAL, steps))
    ensures var s := RunFrom(RunFrom(INITIAL, steps), more);
            Serving(s) && ReadCsl(s).Some?
            && (s.service.ram.corpus != ReadCsl(s).value.corpus ==> LastIsUnacknowledged(s) || UpdateMidway(s))
  {
    InitialState();
    RunKeepsInv(INITIAL, steps);
    hide IsRun, RunFrom, Inv, Follows;
    RunKeepsFollowing(RunFrom(INITIAL, steps), more);
    InvMeans(RunFrom(RunFrom(INITIAL, steps), more));
  }

  ghost predicate Lossless(s: State, steps: seq<Step>)
    requires IsRun(s, steps)
    decreases steps
  {
    steps != [] ==> !Loses(s, steps[0]) && Lossless(After(s, steps[0]), steps[1..])
  }

  /** Only the events named above lose a write, and only after one of them a service boots in doubt. */
  lemma {:induction false} LosslessRun(s: State, steps: seq<Step>)
    requires IsRun(s, steps) && Lossless(s, steps) && !s.lost && !s.doubtful
    ensures !RunFrom(s, steps).lost && !RunFrom(s, steps).doubtful
    decreases steps
  {
    if steps != [] {
      assert !After(s, steps[0]).doubtful;
      hide Effect, Possible, Enters, Loses, Recovers, DoubtfulAfter;
      LosslessRun(After(s, steps[0]), steps[1..]);
    }
  }

  /** Nothing is under way, the last writer is answered, no write was lost, and the boot was not in doubt. */
  predicate Settled(s: State) {
    Idle(s) && !LastIsUnacknowledged(s) && !s.lost && !s.doubtful
  }

  /** In a settled state all copies are the same corpus; only of an empty one there may be no cache file. */
  lemma SettledCopiesAgree(s: State)
    requires Inv(s) && Settled(s)
    ensures ReadCsl(s) == Some(s.service.ram)
    ensures s.cache == Cached(s.service.ram) || (s.cache == NoCache && s.service.ram.corpus == [])
  {
    hide OneInside, RequestsRecorded, WritersKnown;
  }

  /** No write or refresh makes the engine older, only a restart can. */
  lemma EngineNeverGoesBack(s: State, step: Step)
    requires Inv(s) && Enabled(s, step) && Serving(s) && Serving(After(s, step))
    ensures After(s, step).service.ram.at >= s.service.ram.at
  {
    hide OneInside, RequestsRecorded, WritersKnown, CacheFollows, Coherent, FileIsLast;
  }

  lemma OnlyASwapAnswers(s: State, step: Step, id: nat)
    requires Enabled(s, step) && id in s.requests && s.requests[id].Outstanding?
    requires id in After(s, step).requests && After(s, step).requests[id].Refreshed?
    ensures step.RefreshSwaps? && s.service.doing.id == id
  {
    hide Loses, Recovers, DoubtfulAfter, NeedsSeed, BootEngine, BootCaches, CacheAfter, ReadCsl, Enters;
  }

  /** A refresh that is answered with success has installed the snapshot of its own request or a later one. */
  lemma AcknowledgedIsInstalled(s: State, step: Step, id: nat)
    requires Inv(s) && Enabled(s, step)
    requires id in s.requests && s.requests[id].Outstanding?
    requires id in After(s, step).requests && After(s, step).requests[id].Refreshed?
    ensures Serving(After(s, step)) && After(s, step).service.ram.at >= s.requests[id].at
    ensures s.requests[id].at == Last(s) ==> ReadCsl(After(s, step)) == Some(After(s, step).service.ram)
  {
    OnlyASwapAnswers(s, step, id);
    FileReads(s);
    hide OneInside, RequestsRecorded, WritersKnown, CacheFollows, CachedFirst, Coherent, PendingIsNewer, Loses, Recovers, DoubtfulAfter;
  }

  /** A refresh that nothing disturbs installs the snapshot file. */
  lemma WholeRefresh(s: State, id: nat, w: CacheWrite)
    requires Idle(s) && MaySend(s, id) && ReadCsl(s).Some?
    ensures IsRun(s, [RefreshReads(id), RefreshCaches(w), RefreshSwaps])
    ensures var t := RunFrom(s, [RefreshReads(id), RefreshCaches(w), RefreshSwaps]);
            var snap := ReadCsl(s).value;
            t.csl == s.csl && t.temporary == s.temporary && t.history == s.history
            && t.cache == CacheAfter(s.cache, snap, w) && t.service == Up(snap, Ready)
            && t.lost == (!w.Written? || (s.lost && snap.at != Last(s))) && !t.doubtful
            && t.requests == if s.requests[id].Outstanding? then s.requests[id := Refreshed(s.requests[id].at)] else s.requests
  {
    var snap := ReadCsl(s).value;
    var s1 := s.(service := Up(s.service.ram, RefreshRead(id, snap)));
    RefreshReadsStep(s, id);
    RefreshCachesStep(s1, id, snap, w);
    var s2 := After(s1, RefreshCaches(w));
    RefreshSwapsStep(s2, id, snap);
    hide After, Possible, Enters, ReadCsl, CacheAfter;
    ThreeSteps(s, RefreshReads(id), RefreshCaches(w), RefreshSwaps);
  }

  lemma RefreshReadsStep(s: State, id: nat)
    requires Idle(s) && MaySend(s, id) && ReadCsl(s).Some?
    ensures Enabled(s, RefreshReads(id))
    ensures After(s, RefreshReads(id)) == s.(service := Up(s.service.ram, RefreshRead(id, ReadCsl(s).value)))
  {
    hide ReadCsl;
  }

  lemma RefreshCachesStep(s: State, id: nat, snap: Snap, w: CacheWrite)
    requires Serving(s) && s.service.doing == RefreshRead(id, snap)
    ensures Enabled(s, RefreshCaches(w))
    ensures After(s, RefreshCaches(w))
            == s.(service := Up(s.service.ram, RefreshCached(id, snap)), cache := CacheAfter(s.cache, snap, w),
                  lost := !w.Written? || (s.lost && snap.at != Last(s)))
  {
    hide CacheAfter;
  }

  /** What an attempt to write the cache file leaves there: the new index, the old file, or one that cannot be read. */
  lemma CacheWriteLeaves(s: State, w: CacheWrite)
    requires Serving(s) && (s.service.doing.RefreshRead? || s.service.doing.UpdateWritten?)
    ensures var step := if s.service.doing.RefreshRead? then RefreshCaches(w) else UpdateCaches(w);
            Enabled(s, step)
            && After(s, step).cache
               == if w == Written then Cached(s.service.doing.snap) else if w == Kept then s.cache else BadCache
  {
  }

  lemma RefreshSwapsStep(s: State, id: nat, snap: Snap)
    requires Serving(s) && s.service.doing == RefreshCached(id, snap)
    ensures Enabled(s, RefreshSwaps)
    ensures After(s, RefreshSwaps)
            == s.(service := Up(snap, Ready), doubtful := false,
                  requests := if id in s.requests && s.requests[id].Outstanding? then
                                s.requests[id := Refreshed(s.requests[id].at)]
                              else s.requests)
  {
  }

  function GatewayWrites(id: nat, corpus: seq<Entry>): seq<Step> {
    [GatewayCreate(id, corpus), GatewayFill(id), GatewayRename(id)]
  }

  /** The write of a gateway that nothing disturbs: the file holds its corpus, and its refresh is outstanding. */
  lemma WholeGatewayWrite(s: State, id: nat, corpus: seq<Entry>)
    requires id !in s.requests && s.inside == {}
    ensures IsRun(s, GatewayWrites(id, corpus))
    ensures RunFrom(s, GatewayWrites(id, corpus))
            == s.(csl := Whole(corpus), temporary := Absent, inside := {},
                  history := s.history + [Write(corpus, Gateway(id))], requests := s.requests[id := Outstanding(|s.history|)])
  {
    var s1 := After(s, GatewayCreate(id, corpus));
    assert s1 == s.(temporary := Torn, inside := {Gateway(id)}, requests := s.requests[id := Staging(corpus, false)]);
    var s2 := After(s1, GatewayFill(id));
    assert s2 == s1.(temporary := Whole(corpus), requests := s.requests[id := Staging(corpus, true)]);
    var s3 := After(s2, GatewayRename(id));
    assert s3.requests == s.requests[id := Outstanding(|s.history|)];
    ThreeSteps(s, GatewayCreate(id, corpus), GatewayFill(id), GatewayRename(id));
  }

  /** What a gateway's failures leave: its write leaves the file alone, and its refresh is noted as failed. */
  lemma GatewayFails(s: State, id: nat)
    requires id in s.requests
    ensures s.requests[id].Staging? ==>
      Enabled(s, GatewayWriteFails(id)) && After(s, GatewayWriteFails(id)).csl == s.csl
      && After(s, GatewayWriteFails(id)).requests == s.requests[id := WriteFailed]
    ensures s.requests[id].Outstanding? ==>
      Enabled(s, GatewayRefreshFails(id))
      && After(s, GatewayRefreshFails(id)) == s.(requests := s.requests[id := RefreshFailed(s.requests[id].at)])
  {
  }

  /** One undisturbed refresh brings the three copies together again, whatever had gone wrong before. */
  lemma RefreshHeals(s: State, id: nat)
    requires Inv(s) && Idle(s) && MaySend(s, id)
    ensures var steps := [RefreshReads(id), RefreshCaches(Written), RefreshSwaps];
            IsRun(s, steps)
            && var t := RunFrom(s, steps);
               Idle(t) && !t.lost && !t.doubtful && ReadCsl(t) == ReadCsl(s) && ReadCsl(t) == Some(t.service.ram)
               && t.cache == Cached(t.service.ram)
  {
    FileReads(s);
    hide Inv, IsRun, RunFrom;
    WholeRefresh(s, id, Written);
  }

  lemma FileReads(s: State)
    requires Inv(s)
    ensures ReadCsl(s).Some? && ReadCsl(s).value.at == Last(s)
  {
    hide OneInside, RequestsRecorded, WritersKnown;
  }

  lemma ThreeSteps(s: State, a: Step, b: Step, c: Step)
    requires Enabled(s, a) && Enabled(After(s, a), b) && Enabled(After(After(s, a), b), c)
    ensures IsRun(s, [a, b, c])
    ensures RunFrom(s, [a, b, c]) == After(After(After(s, a), b), c)
  {
    hide After, Possible, Enters;
    var t := After(After(After(s, a), b), c);
    assert [a, b, c][1..] == [b, c] && [b, c][1..] == [c] && [c][1..] == [];
    assert IsRun(t, []) && RunFrom(t, []) == t;
    assert IsRun(After(After(s, a), b), [c]) && RunFrom(After(After(s, a), b), [c]) == t;
    assert IsRun(After(s, a), [b, c]) && RunFrom(After(s, a), [b, c]) == t;
  }

  // ----- restarts -----

  /** The seed that a restart writes over the snapshot file. */
  predicate Seeds(s: State, seed: seq<Entry>, readable: bool, written: bool)
    requires Serving(s)
  {
    seed != [] && written && (!readable || s.service.ram.corpus == [])
  }

  /** The engine that a restart from a settled state gives. */
  function RestartEngine(s: State, seeded: bool, seed: seq<Entry>, cacheReadable: bool, readable: bool): Snap
    requires Serving(s)
  {
    if UsesCache(s, cacheReadable) then s.service.ram
    else if !readable then Snap([], -1)
    else if seeded then Snap(seed, |s.history|)
    else s.service.ram
  }

  /** When the snapshot file holds the same corpus as the engine after that restart. */
  predicate RestartAgrees(s: State, seeded: bool, seed: seq<Entry>, cacheReadable: bool, readable: bool)
    requires Serving(s)
  {
    if UsesCache(s, cacheReadable) then !seeded || seed == s.service.ram.corpus
    else readable || (!seeded && s.service.ram.corpus == [])
  }

  /**
    A restart from a settled state takes the same engine from the cache file, or from the snapshot file if it cannot
    read that; there it finds the seed if this was written, and if it cannot read it either, it starts empty.
   */
  lemma RestartKeepsEngine(s: State, seed: seq<Entry>, readable: bool, written: bool, cacheReadable: bool,
                           readAgain: bool, w: CacheWrite)
    requires Inv(s) && Settled(s) && s.inside == {}
    ensures var steps := [Crash, BootStage(seed, readable, written), BootBuild(cacheReadable, readAgain, w)];
            var seeded := Seeds(s, seed, readable, written);
            IsRun(s, steps)
            && RunFrom(s, steps).service == Up(RestartEngine(s, seeded, seed, cacheReadable, readAgain), Ready)
            && ReadCsl(RunFrom(s, steps)).Some?
            && (ReadCsl(RunFrom(s, steps)).value.corpus == RunFrom(s, steps).service.ram.corpus
                <==> RestartAgrees(s, seeded, seed, cacheReadable, readAgain))
  {
    hide Inv, Possible, Enters, RestartEngine, RestartAgrees, Seeds;
    SettledCopiesAgree(s);
    CrashWhenIdle(s);
    var down := After(s, Crash);
    BootFromSettled(s, down, seed, readable, written, cacheReadable, readAgain, w);
    ThreeSteps(s, Crash, BootStage(seed, readable, written), BootBuild(cacheReadable, readAgain, w));
  }

  lemma CrashWhenIdle(s: State)
    requires Idle(s) && s.inside == {}
    ensures Enabled(s, Crash) && After(s, Crash) == s.(service := Down)
  {
  }

  lemma StagedFromSettled(s: State, down: State, seed: seq<Entry>, readable: bool, written: bool)
    requires Serving(s) && down == s.(service := Down) && s.inside == {} && ReadCsl(s) == Some(s.service.ram)
    ensures Enabled(down, BootStage(seed, readable, written))
    ensures var t := After(down, BootStage(seed, readable, written));
            t.service == Staged && t.cache == s.cache
            && if Seeds(s, seed, readable, written) then t.csl == Whole(seed) && Last(t) == |s.history|
               else t.csl == s.csl && Last(t) == Last(s)
  {
    hide Loses, Recovers, DoubtfulAfter, CacheAfter;
  }

  lemma BuiltFromStaged(t: State, cacheReadable: bool, readAgain: bool, w: CacheWrite)
    requires t.service.Staged?
    ensures Enabled(t, BootBuild(cacheReadable, readAgain, w))
    ensures After(t, BootBuild(cacheReadable, readAgain, w)).service == Up(BootEngine(t, cacheReadable, readAgain), Ready)
    ensures ReadCsl(After(t, BootBuild(cacheReadable, readAgain, w))) == ReadCsl(t)
  {
    hide Loses, Recovers, DoubtfulAfter, CacheAfter, BootEngine;
  }

  lemma BootFromSettled(s: State, down: State, seed: seq<Entry>, readable: bool, written: bool, cacheReadable: bool,
                        readAgain: bool, w: CacheWrite)
    requires Serving(s) && down == s.(service := Down) && s.inside == {} && ReadCsl(s) == Some(s.service.ram)
    requires s.cache == Cached(s.service.ram) || (s.cache == NoCache && s.service.ram.corpus == [])
    ensures Enabled(down, BootStage(seed, readable, written))
    ensures Enabled(After(down, BootStage(seed, readable, written)), BootBuild(cacheReadable, readAgain, w))
    ensures var t := After(After(down, BootStage(seed, readable, written)), BootBuild(cacheReadable, readAgain, w));
            var seeded := Seeds(s, seed, readable, written);
            t.service == Up(RestartEngine(s, seeded, seed, cacheReadable, readAgain), Ready) && ReadCsl(t).Some?
            && (ReadCsl(t).value.corpus == t.service.ram.corpus
                <==> RestartAgrees(s, seeded, seed, cacheReadable, readAgain))
  {
    hide After, Possible, Enters;
    StagedFromSettled(s, down, seed, readable, written);
    BuiltFromStaged(After(down, BootStage(seed, readable, written)), cacheReadable, readAgain, w);
  }

  /**
    In every run that ends in a boot, its engine is older than the snapshot file exactly when the cache file that it
    takes is, or when it takes none and the snapshot file cannot be read either. A cache file is older only if a writer
    was not answered or a write was lost.
   */
  lemma StaleBoots(steps: seq<Step>, cacheReadable: bool, readable: bool, w: CacheWrite)
    requires IsRun(INITIAL, steps) && Enabled(RunFrom(INITIAL, steps), BootBuild(cacheReadable, readable, w))
    ensures var s := RunFrom(INITIAL, steps);
            var t := After(s, BootBuild(cacheReadable, readable, w));
            t.service.Up?
            && (t.service.ram.at < Last(t) <==>
                  if UsesCache(s, cacheReadable) then s.cache.snap.at < Last(s) else !readable && s.history != [])
            && (t.service.ram.at < Last(t) ==> LastIsUnacknowledged(s) || t.doubtful)
            && (s.cache.Cached? && s.cache.snap.at < Last(s) ==> LastIsUnacknowledged(s) || s.lost)
  {
    hide OneInside, RequestsRecorded, WritersKnown, IsRun, RunFrom, Loses, Recovers;
    InitialState();
    RunKeepsInv(INITIAL, steps);
  }

  // ----- what can go wrong outside these hypotheses -----

  /** After the first boot, with one record as the seed. */
  function Booted(a: Entry): State {
    State([Write([a], Seeder)], Whole([a]), Absent, {}, Cached(Snap([a], 0)), Up(Snap([a], 0), Ready), map[], false, false)
  }

  function FirstBoot(a: Entry): seq<Step> {
    [BootStage([a], true, true), BootBuild(true, true, Written)]
  }

  lemma FirstBootRuns(a: Entry)
    ensures IsRun(INITIAL, FirstBoot(a)) && RunFrom(INITIAL, FirstBoot(a)) == Booted(a)
  {
    var s1 := After(INITIAL, BootStage([a], true, true));
    assert s1 == State([Write([a], Seeder)], Whole([a]), Absent, {}, NoCache, Staged, map[], false, false);
    assert Enabled(s1, BootBuild(true, true, Written)) && After(s1, BootBuild(true, true, Written)) == Booted(a);
    TwoSteps(INITIAL, BootStage([a], true, true), BootBuild(true, true, Written));
  }

  lemma TwoSteps(s: State, a: Step, b: Step)
    requires Enabled(s, a) && Enabled(After(s, a), b)
    ensures IsRun(s, [a, b]) && RunFrom(s, [a, b]) == After(After(s, a), b)
  {
    hide After, Possible, Enters;
    var t := After(After(s, a), b);
    assert [a, b][1..] == [b] && [b][1..] == [];
    assert IsRun(t, []) && RunFrom(t, []) == t;
    assert IsRun(After(s, a), [b]) && RunFrom(After(s, a), [b]) == t;
  }

  function WriteSteps(corpus: seq<Entry>): seq<Step> {
    [UpdateCreate(corpus), UpdateFill, UpdateRename]
  }

  /** The first half of an update that nothing disturbs. */
  lemma WriteHalf(s: State, corpus: seq<Entry>)
    requires Idle(s) && s.inside == {}
    ensures IsRun(s, WriteSteps(corpus))
    ensures RunFrom(s, WriteSteps(corpus))
            == s.(csl := Whole(corpus), temporary := Absent, inside := {}, history := s.history + [Write(corpus, Updater)],
                  service := Up(s.service.ram, UpdateWritten(Snap(corpus, |s.history|))))
  {
    var s1 := After(s, UpdateCreate(corpus));
    assert s1 == s.(service := Up(s.service.ram, UpdateStaging(corpus, false)), temporary := Torn, inside := {Updater});
    var s2 := After(s1, UpdateFill);
    assert s2 == s1.(service := Up(s.service.ram, UpdateStaging(corpus, true)), temporary := Whole(corpus));
    ThreeSteps(s, UpdateCreate(corpus), UpdateFill, UpdateRename);
  }

  /** A crash there, and a boot from the outdated cache file. */
  lemma CrashHalfway(s: State, seed: seq<Entry>)
    requires Serving(s) && s.service.doing.UpdateWritten? && s.inside == {}
    requires s.cache.Cached? && s.csl.Whole? && s.csl.corpus != []
    ensures var steps := [Crash, BootStage(seed, true, true), BootBuild(true, true, Written)];
            IsRun(s, steps)
            && RunFrom(s, steps) == s.(service := Up(s.cache.snap, Ready), lost := true, doubtful := true)
  {
    var s1 := After(s, Crash);
    assert s1 == s.(service := Down, lost := true);
    var s2 := After(s1, BootStage(seed, true, true));
    assert s2 == s1.(service := Staged);
    ThreeSteps(s, Crash, BootStage(seed, true, true), BootBuild(true, true, Written));
  }

  /** An update that crashes between the snapshot file and the cache file: after the restart the engine is the old one. */
  lemma CrashLeavesStaleEngine(a: Entry, b: Entry)
    requires a != b
    ensures var steps := FirstBoot(a) + WriteSteps([b]) + [Crash, BootStage([a], true, true), BootBuild(true, true, Written)];
            IsRun(INITIAL, steps)
            && var t := RunFrom(INITIAL, steps);
               t.csl == Whole([b]) && t.service == Up(Snap([a], 0), Ready) && t.lost && t.doubtful && t.requests == map[]
  {
    FirstBootRuns(a);
    WriteHalf(Booted(a), [b]);
    CrashHalfway(RunFrom(Booted(a), WriteSteps([b])), [a]);
    hide After, Possible, Enters, IsRun, RunFrom, FirstBoot, WriteSteps;
    AppendRuns(INITIAL, FirstBoot(a), WriteSteps([b]));
    AppendRuns(INITIAL, FirstBoot(a) + WriteSteps([b]), [Crash, BootStage([a], true, true), BootBuild(true, true, Written)]);
  }

  /** A boot that can read neither the cache file nor the snapshot file starts empty beside a full file. */
  lemma FailedReadStartsEmpty(a: Entry, w: CacheWrite)
    ensures var steps := [BootStage([a], true, true), BootBuild(true, false, w)];
            IsRun(INITIAL, steps)
            && var t := RunFrom(INITIAL, steps);
               t.csl == Whole([a]) && t.service == Up(Snap([], -1), Ready) && t.lost && t.doubtful
  {
    var s1 := After(INITIAL, BootStage([a], true, true));
    assert s1 == State([Write([a], Seeder)], Whole([a]), Absent, {}, NoCache, Staged, map[], false, false);
    TwoSteps(INITIAL, BootStage([a], true, true), BootBuild(true, false, w));
  }

  /** A boot that cannot read a complete snapshot file writes the seed over it. */
  lemma FailedReadSeeds(s: State, seed: seq<Entry>)
    requires s.service.Down? && s.inside == {} && s.csl.Whole? && seed != []
    ensures Enabled(s, BootStage(seed, false, true)) && After(s, BootStage(seed, false, true)).csl == Whole(seed)
    ensures After(s, BootStage(seed, false, true)).lost <==> s.lost || s.cache.Cached?
  {
  }

  lemma PrependStep(s: State, step: Step, steps: seq<Step>)
    requires Enabled(s, step) && IsRun(After(s, step), steps)
    ensures IsRun(s, [step] + steps) && RunFrom(s, [step] + steps) == RunFrom(After(s, step), steps)
  {
    hide After, Possible, Enters;
    assert ([step] + steps)[1..] == steps;
  }

  lemma RunUnfold(s: State, steps: seq<Step>)
    requires steps != [] && IsRun(s, steps)
    ensures Enabled(s, steps[0]) && IsRun(After(s, steps[0]), steps[1..])
    ensures RunFrom(s, steps) == RunFrom(After(s, steps[0]), steps[1..])
  {
    hide After, Possible, Enters;
  }

  lemma {:induction false} AppendRuns(s: State, a: seq<Step>, b: seq<Step>)
    requires IsRun(s, a) && IsRun(RunFrom(s, a), b)
    ensures IsRun(s, a + b) && RunFrom(s, a + b) == RunFrom(RunFrom(s, a), b)
    decreases a
  {
    hide After, Possible, Enters;
    if a == [] {
      assert a + b == b;
    } else {
      RunUnfold(s, a);
      hide IsRun, RunFrom;
      AppendRuns(After(s, a[0]), a[1..], b);
      PrependStep(s, a[0], a[1..] + b);
      assert [a[0]] + (a[1..] + b) == a + b;
    }
  }
}

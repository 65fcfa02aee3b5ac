# OcelAudit: verified model

OcelAudit screens names against a consolidated sanctions list. This project models the parts of it that replace a
simple specification by something cleverer, and proves that the two agree:

* the **search engine** (`Text`, `Corpus`, `Sorting`, `Index`, `Scan`, `Candidates`, `Ranking`, `Scoring`, `Search`, `Exact`,
  `Recall`, `Filters`, `Witnesses`, `Autocomplete`, `IndexFile`): the loops that build the inverted, trigram, prefix and id
  indexes; the query that walks them; the cut at 200, the rerank, the filters, the flag and the band. The
  specification is a full scan of the corpus;
* the **calendar and the daily updater** (`Calendar`, `Eastern`, `Scheduler`): closed-form Gregorian conversions
  (leap years as in section 3.2.1 of ISO 8601:2004), the daylight-saving window (section 260a of 15 U.S.C.) and the
  loop that sleeps until 07:00 Eastern;
* the **line protocol** (`LineProtocol`, `UrlDecoding`) and the **refresh protocol** (`Refresh`, `CslService`) between
  gateway and service, under every interleaving of their steps, and the file write that it rests on (`AtomicWrite`);
* the **storage backends** (`Storage`, `StoreMeaning`, `JsonLines`, `Backends`, `Encodings`) and the **review workflow** on top (`Review`,
  `Screening`);
* the **ingest** of external records (`Ingest`, `Ingested`).

Where a result is stated through a function of the model, such as the order of strings, a decision word or the entry
made of a record, a lemma says what that function gives in plain terms: literal words and numbers, positions in lists,
first and last elements (`Scoring`, `StoreMeaning`, `Ingested`, and the sections "what ... mean" of other modules).

Modelling choices. `f32` is `real`; fixed-width integers are unbounded. Text normalisation, Jaro-Winkler similarity and
the logarithm are the functions of a `Language` with the laws of `Text.Lawful` (idempotent; in [0, 1]; monotone with
ln 1 = 0), and the JSON and binary encodings are `Codec`s that round-trip, those of the log entries as
one line that is not blank, that of the snapshot over any number of lines (`Encodings.FaithfulCodecsExist` shows that
there are such); a stored score is the index of a single-precision number, and how a score is rounded to one is a
parameter of `Screening`. Hash maps are iterated in an arbitrary order
(`:|` in a method), so a search result is stated for *some* enumeration `order` of the candidates, and the lemmas hold
for every one. The stable sort of the standard library is `Sorting.StableSort`; a map ordered by key is a list in key
order. Code that loops over variables is a method with a loop, proved against a function or predicate; objects with
state (`LineProtocol.Service`, `Backends.MemoryStorage`, `Backends.JsonFsStorage`, `Review.Gateway`,
`CslService.Service`) are classes. Time, fresh audit ids, what the network delivers and whether a file write succeeds
are parameters.

Where the code and its descriptions differ, the model follows the code, and the difference is a result:

* The comment on `exact_alias_match` says it is about the hits. The engine remembers only the first exact match in
  BM25 order, so a filter can remove that one and keep another (`Witnesses.FilterHidesExact`); which
  records make the comment right is `Filters.FlagWithFilters`, and without filters it is (`Exact.FlagUnfiltered`).
* The cut at 200 comes before everything else and can drop the one exact match (`Witnesses.CutDropsExact`);
  `Recall.RecallWithFilters` says exactly when neither the cut, nor the filters, nor the limit can.
* Suffixed ids are not always distinct (`Ingest.RepeatedId`); `Ingest.IdsDistinct` says exactly when they are.
* A boot prefers the cache file to the snapshot file, so a restart can resurrect an older corpus
  (`Refresh.CrashLeavesStaleEngine`, and `Refresh.StaleBoots` for what it takes); after a feed with no records it writes
  the seed to the snapshot file and still loads the empty engine (`Refresh.RestartKeepsEngine`).
* A boot takes a failed read of the snapshot file for an empty corpus: it writes the seed over a complete file
  (`Refresh.FailedReadSeeds`) or starts an empty engine beside it (`Refresh.FailedReadStartsEmpty`).
* `write_atomic` is atomic for one writer at a time (`AtomicWrite.AloneIsAtomic`); `AtomicWrite.TargetComplete` says
  exactly which runs of several writers leave a complete file.
* The updater's offset is read before sleeping: the autumn date has exactly two runs (`Scheduler.OneWakePerDate`).
* A pending event with 500 newer events is in no queue (`Review.QueueIsPending`).

## Model

| member | source | states |
|---|---|---|
| Calendar.CivilAfterDays | components/csl-service/src/bootstrap.rs:163-184 | converting any valid Gregorian date to its day number and back gives the date |
| Calendar.CivilIsValid | components/csl-service/src/bootstrap.rs:163-184 | every day number, negative ones included, converts to a valid date that converts back to it |
| Calendar.ClosedFormsCount | components/csl-service/src/bootstrap.rs:163-184 | both closed forms equal counting day by day from 1970-01-01 with the leap-year rule, in both directions |
| Eastern.SundayOfMonth | components/csl-service/src/bootstrap.rs:157-161 | the computed day is the n-th Sunday of its month, the only one, always a real day up to the fourth, and the unsigned cast loses nothing |
| Eastern.DstBounds | components/csl-service/src/bootstrap.rs:150-155 | both change instants are 02:00 local time on the legal Sundays and lie strictly inside the UTC year, more than 230 days apart |
| Eastern.WindowOfYear | components/csl-service/src/bootstrap.rs:150-155 | an instant in the window of a year has that UTC year, so one window decides |
| Eastern.OffsetFollowsRule | components/csl-service/src/bootstrap.rs:148-155 | at every instant the offset is the one of the daylight-saving rule |
| Scheduler.SecsUntilNextRun | components/csl-service/src/bootstrap.rs:123-137 | every sleep is between 60 and 86400 seconds |
| Scheduler.SecsUntilUtcHour | components/csl-service/src/bootstrap.rs:139-146 | every sleep to an overridden hour is between 60 and 86400 seconds |
| Scheduler.LocalClock | components/csl-service/src/bootstrap.rs:129-131 | the Eastern date and time of day of an instant |
| Scheduler.Arrival | components/csl-service/src/bootstrap.rs:123-137 | the wake is on the target date at 07:00:00 to 07:00:59 Eastern if the offset is unchanged, else exactly one hour late on the spring date or early on the autumn date |
| Scheduler.ArrivalAtUtcHour | components/csl-service/src/bootstrap.rs:123-146 | with the override, the wake is within a minute after that UTC hour, on the first day that hour comes |
| Scheduler.OneWakePerUtcDay | components/csl-service/src/bootstrap.rs:79-91 | over a whole run with the override, with updates of up to a day less a minute, every UTC day after the first wake has exactly one wake |
| Scheduler.RunScheduler | components/csl-service/src/bootstrap.rs:79-91 | the loop wakes at the instants of the recurrence |
| Scheduler.OneWakePerDate | components/csl-service/src/bootstrap.rs:77-91 | from any start, with updates of at most 59 minutes, every Eastern date after the first wake has exactly one wake, and the autumn change date exactly two |
| Text.AlphanumericIsLetterOrDigit | components/search/src/tokenize.rs:18-18 | the characters of tokens are the letters and digits of ASCII, by their codes |
| Text.TokensSpell | components/search/src/tokenize.rs:15-22 | tokens are non-empty, alphanumeric, and spell all alphanumeric characters of the normalised text in order |
| Text.TokensAreRuns | components/search/src/tokenize.rs:15-22 | the tokens are the maximal alphanumeric runs: separated by at least one other character each, they make up the normalised text |
| Text.TrigramsArePieces | components/search/src/tokenize.rs:27-45 | the trigrams are exactly the pieces of three characters of the normalised text between `^` and `$` with `_` for other characters, one from every position |
| Text.StringLeIsDictionary | components/search/src/engine.rs:139-141 | the order of strings is that of a dictionary: by the first difference, a prefix first |
| Text.HasTrigrams | components/search/src/tokenize.rs:27-45 | a text has trigrams exactly when it is not empty once normalised |
| Text.NormalizedTwice | components/search/src/tokenize.rs:5-45 | a stored, already normalised surface form has the tokens and trigrams of its original |
| Sorting.SortIsStable | components/search/src/engine.rs:284-284 | the sort keeps the order of what may stay in order |
| Index.CountTokens | components/search/src/engine.rs:84-106 | term frequencies are the exact occurrence counts over all fields, and the total is their number |
| Index.Build | components/search/src/engine.rs:66-168 | the built engine is an index of exactly the given corpus: tables, posting lists, gram lists, sorted prefix buckets, last-wins id map |
| Scan.PostingLists | components/search/src/engine.rs:108-138 | every posting list is in range, strictly increasing, complete, with exact frequencies, and as long as the document frequency |
| Scan.PostedLength | components/search/src/engine.rs:85-110 | the frequencies of a record summed over the inverted lists are its recorded length |
| Candidates.AddTerm | components/search/src/engine.rs:241-257 | one query token adds its full-scan score to every record that contains it and to no other |
| Candidates.CountOverlap | components/search/src/engine.rs:261-270 | the overlap counts are those of comparing every query trigram with every record |
| Candidates.Collect | components/search/src/engine.rs:235-280 | the candidate map is that of a full scan: same records, same BM25 sums, query repeats counted |
| Ranking.Bm25NonNegative | components/search/src/engine.rs:246-255 | every document frequency and BM25 sum gives a score of at least zero |
| Ranking.ContributionBounded | components/search/src/engine.rs:252-255 | a term contributes at most 2.2 times its inverse document frequency |
| Ranking.ScoresInUnit | components/search/src/engine.rs:308-330 | strengths and blended scores of the shortlist are in [0, 1] |
| Ranking.TopOfFiltered | components/search/src/engine.rs:282-346 | the answer is the best max(limit, 1) of the filtered best 200: no record twice, all accepted, scores descending, nothing better left out |
| Scoring.RecordTokens | components/search/src/engine.rs:84-106 | the tokens of a record are those of its name, aliases, addresses, nationalities and programs, with repeats |
| Scoring.FrequencyCounts | components/search/src/engine.rs:246-247 | the document frequency is the number of records with the token |
| Scoring.RarerWeighsMore | components/search/src/engine.rs:249-249 | the inverse document frequency is ln((n + 1) / (df + 0.5)), and a rarer token never weighs less |
| Scoring.MeanLength | components/search/src/engine.rs:127-131 | the mean length times the number of records is the number of tokens of all records |
| Scoring.TokenScore | components/search/src/engine.rs:246-255 | the BM25 equation of one token in one record, with 2.2, 0.3 and 0.9 from k1 = 1.2 and b = 0.75 |
| Scoring.ScoresAdd | components/search/src/engine.rs:241-257 | the score of a query is the sum over its tokens, repeats counted |
| Scoring.FuzzyThreshold | components/search/src/engine.rs:259-280 | a record without a common token is a fuzzy candidate if and only if k >= 1 and 2 k + 1 >= n, with k of the n positions of the query having a trigram of its name or an alias |
| Scoring.ExactMeansSameName | components/search/src/engine.rs:313-320 | an exact match has a name or alias with the normal form of the query, which is not empty |
| Scoring.StrengthIsBest | components/search/src/engine.rs:311-326 | the strength is 1 for an exact match, else the highest similarity of name and aliases |
| Scoring.BlendedScore | components/search/src/engine.rs:327-328 | the ranking score is 0.7 of the strength and 0.06 of the BM25 score up to 5 |
| Scoring.ShortlistIsBest | components/search/src/engine.rs:282-287 | the shortlist is 200 of the candidates, or all, and no other has a higher BM25 score |
| Scoring.FiltersByLists | components/search/src/engine.rs:337-342 | a record passes the filters if and only if its source and its type are on the lists that are given |
| Scoring.ReturnedCount | components/search/src/engine.rs:345-346 | as many records are returned as pass the filters, up to the limit, and at least one if there is one |
| Search.Drain | components/search/src/engine.rs:283-283 | draining the hash map enumerates every candidate once, in any order |
| Search.MatchStrength | components/search/src/engine.rs:312-326 | the loop with its early exit finds the best similarity and recognises an exact match |
| Search.RerankAll | components/search/src/engine.rs:309-330 | the loop computes every score and remembers the first exact match |
| Search.Search | components/search/src/engine.rs:235-400 | the result is that of the pipeline applied to the full-scan candidates in some order |
| Search.HitsDescribeRecords | components/search/src/engine.rs:352-392 | every hit names an accepted record, no two the same, with its score of 0.7 strength and 0.06 BM25, its band by its strength, and the fields that match; scores descend, and the band of the answer follows from its flag and first hit |
| Exact.FlagMeaning | components/search/src/engine.rs:308-350 | the flag is set if and only if an exact match is returned and the remembered one passes the filters |
| Exact.FlagUnfiltered | components/search/src/engine.rs:348-350 | without filters the flag is set if and only if an exact match is among the returned hits |
| Exact.AboveExact | components/search/src/engine.rs:308-343 | whatever is ranked above an exact match has strength at least 4/7 |
| Exact.ExactIsCandidate | components/search/src/engine.rs:259-280 | an exact match is a candidate if and only if the search is fuzzy or the query has a token |
| Recall.RecallWithFilters | components/search/src/engine.rs:282-350 | for every filter, limit and number of candidates: a search flags an exact match in every order of the hash map if and only if the filters accept every best exact match, fewer than 200 other candidates have at least its BM25 score, and fewer than the limit of those are accepted and have at least its blended score |
| Recall.RecallAtLimit | components/search/src/engine.rs:282-350 | without filters, if and only if fewer than 200 other candidates have at least its BM25 score and fewer than the limit have at least its blended score too |
| Recall.RecallUnderCut | components/search/src/engine.rs:282-287 | with a limit of at least 200, if and only if fewer than 200 other candidates score at least as much as the best exact match |
| Filters.FlagWithFilters | components/search/src/engine.rs:282-350 | for every filter, limit and number of candidates: the flag says in every order of the hash map whether an exact match is returned, if and only if no best exact match is rejected while another is accepted that the cut at 200 and the limit leave room for |
| Filters.FlagWithRoom | components/search/src/engine.rs:337-350 | with at most 200 candidates and a limit that covers them: if and only if every exact match with the best BM25 score passes the filters or no exact match does |
| Recall.ExactRecall | components/search/src/engine.rs:259-355 | with at most 200 candidates and room for them, the flag is set if and only if the corpus has an exact match and the search is fuzzy or has a token; then the result is red |
| Witnesses.FilterHidesExact | components/search/src/engine.rs:337-350 | for every name, a filter under which an exact match is returned and the flag is not set |
| Witnesses.CutDropsExact | components/search/src/engine.rs:282-287 | a corpus of 201 records whose only exact match is cut, with limit 1000 and no filter |
| Autocomplete.Suggest | components/search/src/engine.rs:405-426 | the suggestions are the first max(limit, 1) of the sorted, duplicate-free list of all surface forms with the prefix |
| Autocomplete.SuggestionsUnique | components/search/src/engine.rs:402-404 | there is only one such list |
| IndexFile.LoadAfterSerialize | components/search/src/engine.rs:196-223 | a serialised engine loads as itself |
| IndexFile.SerializedHeader | components/search/src/engine.rs:196-202 | a serialised engine starts with OcelAuditIDX and the version 1 in four bytes, the lowest first |
| IndexFile.LoadMeans | components/search/src/engine.rs:205-223 | what does not start like that is a miss; what does is decoded, and an error only if that fails |
| IndexFile.OtherVersionMisses | components/search/src/engine.rs:205-219 | a file of another format version is a cache miss, not an error |
| LineProtocol.NewlineIsTen | components/csl-service/src/main.rs:106-106 | lines end with the byte 10 |
| LineProtocol.LinesRebuild | components/csl-service/src/main.rs:105-121 | framing the lines of a stream and appending the unfinished rest gives the stream back |
| LineProtocol.LinesOfFramed | components/csl-service/src/main.rs:105-121 | framed newline-free lines are read back as those lines |
| LineProtocol.Service.ServeConnection | components/csl-service/src/main.rs:95-123 | replies and final state are the handler folded over the newline-terminated lines, with any change of the state by the updater or a gateway between two lines, whatever the split into reads |
| LineProtocol.Service.Serve | components/csl-service/src/main.rs:73-124 | the state, changed by others between two lines, is threaded through all connections and an unfinished line never reaches the next |
| LineProtocol.ReceivedIsPrefix | components/csl-service/src/main.rs:97-104 | a connection ends at the first read that fails or is empty |
| LineProtocol.RunIsChain | components/csl-service/src/main.rs:105-110 | each line is answered in the state that the one before left and others changed |
| LineProtocol.ServedIsRun | components/csl-service/src/main.rs:84-124 | several connections leave the state that one connection with all their lines would leave |
| LineProtocol.ReadOutcome | components/api-gateway/src/csl_client.rs:60-86 | the outcome of reading: the bytes before a newline at the end, an error at the deadline or for a broken connection, what there is for a closed one or an empty read |
| LineProtocol.Request | components/api-gateway/src/csl_client.rs:46-86 | the request is sent whole, in chunks of at most 4096 bytes, and the reading loop has the outcome of its specification |
| LineProtocol.ReplyFromEverySplit | components/api-gateway/src/csl_client.rs:60-80 | the client recovers the reply from every split of it if and only if it contains no newline |
| LineProtocol.RoundTrip | components/api-gateway/src/csl_client.rs:24-87 | a request gets exactly the reply to its own line, in the state that others left, however both sides' reads split the bytes |
| UrlDecoding.UrlDecode | components/api-gateway/src/routes.rs:724-755 | the loop decodes the whole text |
| UrlDecoding.PlusIsSpace | components/api-gateway/src/routes.rs:724-755 | a plus sign is a space |
| UrlDecoding.OthersAreThemselves | components/api-gateway/src/routes.rs:724-755 | every character but the plus and the percent sign stands for itself |
| UrlDecoding.EscapeIsByte | components/api-gateway/src/routes.rs:724-755 | a percent sign and two hexadecimal digits in either case are one byte |
| UrlDecoding.BrokenEscapeStays | components/api-gateway/src/routes.rs:724-755 | a percent sign without two such digits stands for itself |
| UrlDecoding.DecodeAfterEncode | components/api-gateway/src/routes.rs:721-755 | decoding undoes percent-encoding, for all bytes |
| Storage.SourcesCounted | components/storage-jsonfs/src/lib.rs:258-278 | the source counts are in strict name order, count every entry once, and each is the number of entries of its source |
| Storage.PagesAreReversedLog | components/storage-jsonfs/src/lib.rs:336-343 | consecutive pages are a prefix of the reversed log |
| Storage.AllPages | components/storage-jsonfs/src/lib.rs:336-343 | enough pages are the whole reversed log, nothing lost or repeated |
| Storage.PagesShift | components/storage-memory/src/lib.rs:145-154 | events logged between two page requests shift the pages by their number |
| JsonLines.ReadLog | components/storage-jsonfs/src/lib.rs:462-478 | reading skips blank lines and fails on the first line that does not decode |
| JsonLines.LogMeans | components/storage-jsonfs/src/lib.rs:462-478 | a log reads as the values of its lines that are not white, in order, and not at all if one of them does not decode |
| JsonLines.FileLinesAre | components/storage-jsonfs/src/lib.rs:466-470 | the lines of a file, without a carriage return before the newline, and a last one without a newline |
| JsonLines.AppendReadsBack | components/storage-jsonfs/src/lib.rs:450-478 | appending a value to a log appends it to what the log reads back as |
| Encodings.FaithfulCodecsExist | components/storage-jsonfs/src/lib.rs:439-478 | encodings exist that the file backend can rely on: of snapshots over several lines, of events and reviews as one line that is not blank, all distinct |
| StoreMeaning.ReplacedCorpus | components/storage-jsonfs/src/lib.rs:258-314 | from any contents, after a bulk replace and anything but another one, every query of the corpus is answered from exactly its entries, time and version |
| StoreMeaning.NoCorpusYet | components/storage-jsonfs/src/lib.rs:315-324 | before the first bulk replace there is no corpus |
| StoreMeaning.GrownLogs | components/storage-memory/src/lib.rs:141-243 | both logs are what they were and what was logged since: pages by position from the end, the first event with an id, the reviews of an event in order |
| Backends.MemoryStorage.Do | components/storage-memory/src/lib.rs:81-243 | every operation changes and answers as the abstract store does |
| AtomicWrite.TargetComplete | components/storage-jsonfs/src/lib.rs:439-448 | for any number of writers with one temporary name: the file is complete after every prefix of a run, whatever they write, if and only if no rename finds a temporary file not written exactly once and no write goes to a file already renamed |
| AtomicWrite.AloneIsAtomic | components/storage-jsonfs/src/lib.rs:439-448 | one writer at a time: the file is always the text of the last writer that renamed |
| AtomicWrite.GivingUp | components/storage-jsonfs/src/lib.rs:439-448 | a writer that fails before its rename leaves the target as it was |
| AtomicWrite.EmptiedUnderTheRename | components/storage-jsonfs/src/lib.rs:439-448 | a rename right after another writer created the temporary file leaves an empty file, whatever the texts |
| AtomicWrite.OverlapMixes | components/storage-jsonfs/src/lib.rs:439-448 | a run in which both texts are written before the rename and the file is a mixture |
| Backends.JsonFsStorage.WriteAtomic | components/storage-jsonfs/src/lib.rs:439-448 | the target ends as the encoded value and the temporary file is gone |
| Backends.JsonFsStorage.Do | components/storage-jsonfs/src/lib.rs:258-348 | every operation on the files changes what they read back as, and answers, as the abstract store does, without error |
| Backends.BackendsAgree | components/storage-jsonfs/src/lib.rs:40-73 | after the same contents any sequence of operations gets the same answers from both backends |
| Review.Gateway.Search | components/api-gateway/src/routes.rs:469-571 | an answered search appends one event that follows its band; a failed one appends nothing and is answered 400, 503 or 502 |
| Review.Gateway.ReviewDecide | components/api-gateway/src/routes.rs:909-966 | a known event is approved or blocked by the words for that, in reply, log and from then on; else 400 or 404 and no change |
| Review.Gateway.AuditList | components/api-gateway/src/routes.rs:759-794 | the page carries every event with its current decision |
| Review.Gateway.AuditDetail | components/api-gateway/src/routes.rs:796-829 | the detail is the event, its current decision and its history, or 400 or 404 |
| Review.Gateway.ReviewQueue | components/api-gateway/src/routes.rs:974-1008 | the queue is the queued ones of the 500 newest events, newest first |
| Review.DecisionWords | components/api-gateway/src/routes.rs:926-942 | cleared, approved and reviewed-approved approve, blocked and reviewed-blocked block, whatever the case of their letters, and no other word decides |
| Review.EventTells | components/api-gateway/src/routes.rs:515-545 | a logged event carries user, query, source, time and the first five hits, and the band and decision of the reply |
| Review.CurrentIsLast | components/api-gateway/src/routes.rs:766-776 | the current decision is that of the last review of the event, or its initial one |
| Review.ListFromTheEnd | components/api-gateway/src/routes.rs:759-794 | the list shows the newest events first, from an offset, each with its current decision |
| Review.QueueInOrder | components/api-gateway/src/routes.rs:983-1006 | the rows of the queue are in the order of the page |
| Review.RunKeepsLogs | components/api-gateway/src/routes.rs:525-545 | over every run with fresh ids: ids stay unique, decisions follow the stored band, every review names a logged event |
| Review.LogsGrow | components/api-gateway/src/routes.rs:532-545 | both logs only grow, so initial decisions and reviews never change |
| Review.PendingMeansUnreviewed | components/api-gateway/src/routes.rs:766-776 | an event is pending if and only if it started pending and has no review |
| Review.ReviewedStays | components/api-gateway/src/routes.rs:926-956 | an event that is not pending never becomes pending |
| Review.DecisionTakesEffect | components/api-gateway/src/routes.rs:944-956 | a decision that is taken is the current one |
| Review.OthersKeepDecision | components/api-gateway/src/routes.rs:944-956 | a request changes the decision of no other event |
| Review.QueueIsPending | components/api-gateway/src/routes.rs:974-1008 | an event is queued if and only if nobody reviewed it, it waits for a review or, if asked for, was blocked automatically, and it is among the 500 newest; its detail shows that decision |
| Review.ViewsAgree | components/api-gateway/src/routes.rs:808-812 | list and queue rows carry the event and decision of the detail view |
| Screening.ReplyCarries | components/csl-service/src/main.rs:341-365 | the reply carries band, flag and hits of the result |
| Screening.AutoBlockMeansExact | components/api-gateway/src/routes.rs:515-530 | an event is auto-blocked if and only if the flag is set; without filters, if and only if an exact match was returned |
| Screening.ExactIsBlocked | components/api-gateway/src/routes.rs:525-530 | with at most 200 candidates and a limit that covers them, a fuzzy unfiltered search is auto-blocked if and only if the corpus has an exact match |
| Screening.ListedNameIsBlocked | components/api-gateway/src/routes.rs:487-530 | for every filter, such as the forced source lists, and every limit: all results that a search may give are auto-blocked if and only if the filters accept every best exact match, it has fewer than 200 rivals, and fewer than the limit of those are accepted and outrank it |
| Screening.ScreenName | components/api-gateway/src/routes.rs:469-571 | search and logging together: one more event, with the decision that was answered |
| Refresh.RunKeepsInv | components/csl-service/src/main.rs:229-236 | every step of every interleaving keeps the invariant of the three copies |
| Refresh.Coherence | components/api-gateway/src/routes.rs:341-369 | in every run the engine is one complete snapshot, and if it is not the one in the file, the writer of that is unanswered or failed, an update is midway, or the service booted in doubt and has installed no engine since |
| Refresh.CrashFreeCoherence | components/csl-service/src/bootstrap.rs:61-75 | once the engine follows the file, it differs in any run without a crash only while the last writer is unanswered or failed or an update is midway, whatever becomes of the cache file |
| Refresh.LosslessRun | components/csl-service/src/main.rs:126-159 | a boot is in doubt only after a write of the cache that failed, a crash between snapshot and cache, a seed written beside a readable cache file, or a boot that could read neither file |
| Refresh.SettledCopiesAgree | components/csl-service/src/main.rs:286-293 | with nothing under way, the last writer answered, no write lost and no doubt, file, cache and engine are the same corpus; only an empty one may have no cache file |
| Refresh.WholeGatewayWrite | components/api-gateway/src/routes.rs:341-346 | an undisturbed write of a gateway puts its corpus into the file and leaves its refresh outstanding |
| Refresh.GatewayFails | components/api-gateway/src/routes.rs:345-369 | a failed write leaves the file alone, and a failed refresh is noted |
| Refresh.CacheWriteLeaves | components/csl-service/src/bootstrap.rs:69-71 | a write of the cache leaves the new index, the old file, or one that cannot be read |
| Refresh.EngineNeverGoesBack | components/csl-service/src/bootstrap.rs:61-75 | while the service runs, its engine never becomes older |
| Refresh.AcknowledgedIsInstalled | components/api-gateway/src/routes.rs:348-369 | a refresh answered with success has installed its own snapshot or a later one; if its own is the last, engine and file agree |
| Refresh.RefreshHeals | components/csl-service/src/main.rs:286-293 | one undisturbed refresh makes the three copies agree again, whatever was lost before |
| Refresh.RestartKeepsEngine | components/csl-service/src/main.rs:126-159 | what engine a restart from a settled state gives, whether or not reads of its two files fail, and exactly when the file holds the same corpus |
| Refresh.StaleBoots | components/csl-service/src/main.rs:126-159 | in every run a boot is stale if and only if the cache file that it takes is not of the last write, or it takes none and the snapshot file cannot be read either; the first only if the last writer is unanswered or a write was lost |
| Refresh.CrashLeavesStaleEngine | components/csl-service/src/bootstrap.rs:61-75 | a run in which a crash between snapshot and cache leaves the old engine after the restart |
| Refresh.FailedReadStartsEmpty | components/csl-service/src/main.rs:143-158 | a run in which a failed read at boot leaves an empty engine beside a full file |
| Refresh.FailedReadSeeds | components/csl-service/src/bootstrap.rs:46-57 | a failed read at boot writes the seed over a complete file |
| CslService.Service.RunUpdate | components/csl-service/src/bootstrap.rs:60-75 | an undisturbed update is a run of the protocol; a failed one leaves file, cache and engine alone |
| CslService.Service.HandleRefresh | components/csl-service/src/main.rs:229-236 | an undisturbed refresh is a run of the protocol and installs the snapshot file |
| CslService.Service.StageEnvironment | components/csl-service/src/bootstrap.rs:47-57 | a corpus that is missing, empty or cannot be read is seeded, as the protocol's boot step says |
| CslService.Service.BuildEngine | components/csl-service/src/main.rs:126-159 | the engine comes from a readable cache file, else from the snapshot file, else, also after a failed read, it is empty |
| CslService.Service.Boot | components/csl-service/src/main.rs:55-63 | a boot is two steps of the protocol |
| Ingest.ParseRecords | components/csl-ingest/src/lib.rs:143-200 | one entry for every named record, in order, under its suffixed identifier |
| Ingested.EntriesSay | components/csl-ingest/src/lib.rs:156-199 | every entry has the name, aliases, programs, source and type of its record, its addresses as texts with commas, its nationalities without repeats, and its raw identifier or, from the second one on, that with its number |
| Ingested.IngestedNamesMatch | components/search/src/engine.rs:313-320 | under its name and each alternative name the entry of a record is an exact match |
| Ingested.NumeralReadsBack | components/csl-ingest/src/lib.rs:169-178 | the numbers in identifiers are decimal numerals |
| Ingest.KeptAreNamed | components/csl-ingest/src/lib.rs:158-162 | exactly the records with a non-empty name are kept, in feed order |
| Ingest.DedupKeepsValues | components/csl-ingest/src/lib.rs:185-187 | merging nationalities and citizenships keeps one value of every group of equal neighbours, in order |
| Ingest.IdsDistinct | components/csl-ingest/src/lib.rs:154-178 | identifiers are pairwise distinct if and only if no raw one is spelled like a suffix that is handed out |
| Ingest.IdsWithoutHash | components/csl-ingest/src/lib.rs:154-178 | in particular when no raw identifier contains a hash sign |
| Ingest.RepeatedId | components/csl-ingest/src/lib.rs:172-178 | a feed of three records with a repeated identifier |
| Ingest.LookupsAgree | components/search/src/engine.rs:152-155 | last-wins map and first-match scan name the same entry for every id if and only if ids are distinct |
| Ingest.IngestedLookups | components/search/src/engine.rs:178-181 | after ingest without such a spelling, engine and storage answer every identifier alike |

## Left out

- Rounding of `f32` and overflow of `u32`/`i64`: reals and unbounded integers are used.
- Text normalisation, Jaro-Winkler, JSON and binary encodings: parameters with the laws named above.
- Ingest.ParseRecords: starts from parsed records; the JSON shapes, the table of source names and the synonyms of entity types are parameters, because they are library parsing and tables.
- Review.Gateway: runs on the memory backend only; both backends are proved to answer alike.
- Review.Gateway.Search: the citation and tags of a stored hit are not carried, because they copy fields of the entry; the answer 500 of a log that cannot be written is not modelled, because the memory backend always writes.
- JsonLines.ReadLog: white space is that of ASCII, and a line that is not UTF-8 is one that does not decode; the code also skips lines of Unicode white space.
- Backends.JsonFsStorage.Do: assumes that appends and writes complete; a torn append leaves a log that the code cannot read.
- LineProtocol.Service.ServeConnection: assumes that writes succeed; after a failed write the code gives no useful guarantee.
- LineProtocol.Request: connecting is not modelled, and the reads that happen before the deadline are given as a list.
- CslService.Service.ListAll: that an existence test fails for a file that exists, and the file is taken for a missing one, is not modelled.
- Refresh.Coherence: one writer at a time is inside the atomic write, because the temporary name is fixed; `AtomicWrite` says what several can do.
- AtomicWrite.TargetComplete: a text is written in one step; a write that stops half-way is an `Abandon` before it.
- Users, passwords, sessions, static assets, the outgoing fetch and all of the user interface: library calls or no logic.
- `stats_payload`, `metrics`, `parse_paging` and the source tables: settled by reading one loop or one branch.
- UrlDecoding.UrlDecode: works on bytes; the lossy conversion to text after it is not modelled.

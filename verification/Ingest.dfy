/** From external records to corpus entries: which records are kept, and how repeated identifiers are told apart. */
module Ingest {
  import opened Wrappers
  import opened Text
  import opened Corpus
  import opened Index

  datatype Address = Address(
    address: Option<string>,
    city: Option<string>,
    state: Option<string>,
    postalCode: Option<string>,
    country: Option<string>
  )

  datatype Record = Record(
    id: Option<string>,
    name: Option<string>,
    altNames: seq<string>,
    kind: Option<string>,
    source: Option<string>,
    programs: seq<string>,
    addresses: seq<Address>,
    nationalities: seq<string>,
    citizenships: seq<string>
  )

  /** The tables that translate the names of sources and of entity types. */
  datatype Mapping = Mapping(shortCode: string -> Option<string>, entityType: string -> EntityType)

  function GetOr(o: Option<string>, default: string): string {
    if o.Some? then o.value else default
  }

  // ----- decimal numerals -----

  function Digit(n: nat): char
    requires n < 10
  {
    ['0', '1', '2', '3', '4', '5', '6', '7', '8', '9'][n]
  }

  function Decimal(n: nat): string {
    if n < 10 then [Digit(n)] else Decimal(n / 10) + [Digit(n % 10)]
  }

  lemma {:induction false} DecimalInjective(a: nat, b: nat)
    requires Decimal(a) == Decimal(b)
    ensures a == b
  {
    var x, y := Decimal(a), Decimal(b);
    DecimalLength(a);
    DecimalLength(b);
    assert x[|x| - 1] == y[|y| - 1];
    if a >= 10 && b >= 10 {
      assert x[..|x| - 1] == Decimal(a / 10) && y[..|y| - 1] == Decimal(b / 10);
      DecimalInjective(a / 10, b / 10);
    }
  }

  lemma DecimalLength(n: nat)
    ensures |Decimal(n)| >= 1 && (n >= 10 ==> |Decimal(n)| >= 2)
    ensures n < 10 ==> |Decimal(n)| == 1
  {
    if n >= 10 {
      DecimalLength(n / 10);
    }
  }

  lemma {:induction false} DecimalHasNoHash(n: nat)
    ensures '#' !in Decimal(n)
  {
    if n >= 10 {
      DecimalHasNoHash(n / 10);
    }
  }

  // ----- the transformation -----

  predicate IsNamed(r: Record) {
    r.name.Some? && r.name.value != []
  }

  /** A kept record with its position in the feed. */
  datatype Row = Row(position: nat, record: Record)

  function Kept(records: seq<Record>): seq<Row> {
    if records == [] then []
    else
      var n := |records| - 1;
      Kept(records[..n]) + if IsNamed(records[n]) then [Row(n, records[n])] else []
  }

  function SourceList(m: Mapping, r: Record): string {
    var raw := GetOr(r.source, "Unknown");
    GetOr(m.shortCode(raw), raw)
  }

  /** The identifier of the feed, or one made from the source and the position. */
  function RawId(m: Mapping, row: Row): string {
    GetOr(row.record.id, SourceList(m, row.record) + "-" + Decimal(row.position))
  }

  function RawIds(m: Mapping, rows: seq<Row>): (ids: seq<string>)
    ensures |ids| == |rows|
  {
    seq(|rows|, k requires 0 <= k < |rows| => RawId(m, rows[k]))
  }

  function Suffixed(raw: string, n: nat): string {
    raw + "#" + Decimal(n)
  }

  /** The first record with a raw identifier keeps it; the n-th one gets the suffix `#n`. */
  function IdAt(raws: seq<string>, k: nat): string
    requires k < |raws|
  {
    var earlier := multiset(raws[..k])[raws[k]];
    if earlier == 0 then raws[k] else Suffixed(raws[k], earlier + 1)
  }

  function NonEmptyParts(parts: seq<Option<string>>): seq<string> {
    if parts == [] then []
    else (if parts[0].Some? && parts[0].value != [] then [parts[0].value] else []) + NonEmptyParts(parts[1..])
  }

  function Join(parts: seq<string>): string {
    if parts == [] then [] else if |parts| == 1 then parts[0] else parts[0] + ", " + Join(parts[1..])
  }

  function Flat(a: Address): string {
    Join(NonEmptyParts([a.address, a.city, a.state, a.postalCode, a.country]))
  }

  function FlatAddresses(addresses: seq<Address>): seq<string> {
    if addresses == [] then []
    else (if Flat(addresses[0]) != [] then [Flat(addresses[0])] else []) + FlatAddresses(addresses[1..])
  }

  /** Drops an element that equals the one just before it. */
  function Dedup(s: seq<string>): seq<string> {
    if |s| <= 1 then s
    else if s[|s| - 1] == s[|s| - 2] then Dedup(s[..|s| - 1])
    else Dedup(s[..|s| - 1]) + [s[|s| - 1]]
  }

  function EntryOf(m: Mapping, r: Record, id: string): Entry
    requires IsNamed(r)
  {
    Entry(id, SourceList(m, r), r.name.value, r.altNames, m.entityType(GetOr(r.kind, "")),
          FlatAddresses(r.addresses), Dedup(r.nationalities + r.citizenships), r.programs)
  }

  lemma {:induction false} KeptAreNamed(records: seq<Record>)
    ensures forall row :: row in Kept(records) ==>
      row.position < |records| && records[row.position] == row.record && row.record.name.Some? && row.record.name.value != ""
    ensures forall i: nat :: i < |records| && records[i].name.Some? && records[i].name.value != "" ==>
      Row(i, records[i]) in Kept(records)
    ensures forall i, j :: 0 <= i < j < |Kept(records)| ==> Kept(records)[i].position < Kept(records)[j].position
  {
    if records != [] {
      KeptAreNamed(records[..|records| - 1]);
    }
  }

  /** A value and how often it stands in a row. */
  datatype Repeat = Repeat(value: string, count: nat)

  function Copies(value: string, count: nat): seq<string> {
    if count == 0 then [] else Copies(value, count - 1) + [value]
  }

  function Expand(repeats: seq<Repeat>): seq<string> {
    if repeats == [] then []
    else
      var last := repeats[|repeats| - 1];
      Expand(repeats[..|repeats| - 1]) + Copies(last.value, last.count)
  }

  function RepeatsOf(s: seq<string>): (r: seq<Repeat>)
    ensures s != [] ==> r != [] && r[|r| - 1].value == s[|s| - 1]
  {
    if s == [] then []
    else
      var n := |s| - 1;
      Grouped(RepeatsOf(s[..n]), s[n])
  }

  function Grouped(groups: seq<Repeat>, x: string): (r: seq<Repeat>)
    ensures r != [] && r[|r| - 1].value == x
  {
    var k := |groups| - 1;
    if k >= 0 && groups[k].value == x then groups[..k] + [Repeat(x, groups[k].count + 1)] else groups + [Repeat(x, 1)]
  }

  lemma ExpandLast(repeats: seq<Repeat>, last: Repeat)
    ensures Expand(repeats + [last]) == Expand(repeats) + Copies(last.value, last.count)
  {
    assert (repeats + [last])[..|repeats|] == repeats;
  }

  lemma OneCopyMore(front: seq<string>, value: string, count: nat)
    ensures front + Copies(value, count + 1) == front + Copies(value, count) + [value]
    ensures Copies(value, 1) == [value]
  {
    assert Copies(value, 1) == Copies(value, 0) + [value];
  }

  lemma OneCopyMoreExpands(repeats: seq<Repeat>)
    requires repeats != []
    ensures var k := |repeats| - 1;
            var last := repeats[k];
            Expand(repeats[..k] + [Repeat(last.value, last.count + 1)]) == Expand(repeats) + [last.value]
  {
    var front, last := repeats[..|repeats| - 1], repeats[|repeats| - 1];
    ExpandLast(front, Repeat(last.value, last.count + 1));
    OneCopyMore(Expand(front), last.value, last.count);
  }

  lemma GroupedExpands(groups: seq<Repeat>, x: string)
    ensures Expand(Grouped(groups, x)) == Expand(groups) + [x]
  {
    var k := |groups| - 1;
    if k >= 0 && groups[k].value == x {
      OneCopyMoreExpands(groups);
    } else {
      ExpandLast(groups, Repeat(x, 1));
      OneCopyMore([], x, 0);
    }
  }

  lemma {:induction false} RepeatsExpand(s: seq<string>)
    ensures Expand(RepeatsOf(s)) == s
  {
    if s != [] {
      var n := |s| - 1;
      RepeatsExpand(s[..n]);
      assert RepeatsOf(s) == Grouped(RepeatsOf(s[..n]), s[n]);
      hide RepeatsOf, Expand, Grouped;
      GroupedExpands(RepeatsOf(s[..n]), s[n]);
      assert s == s[..n] + [s[n]];
    }
  }

  function Values(groups: seq<Repeat>): (r: seq<string>)
    ensures |r| == |groups|
  {
    seq(|groups|, i requires 0 <= i < |groups| => groups[i].value)
  }

  /** No group is empty, and no two in a row have the same value. */
  ghost predicate Proper(groups: seq<Repeat>) {
    && (forall i :: 0 <= i < |groups| ==> groups[i].count >= 1)
    && (forall i :: 0 < i < |groups| ==> groups[i].value != groups[i - 1].value)
  }

  lemma GroupedIsProper(groups: seq<Repeat>, x: string)
    requires Proper(groups)
    ensures Proper(Grouped(groups, x))
    ensures Values(Grouped(groups, x))
            == if groups != [] && groups[|groups| - 1].value == x then Values(groups) else Values(groups) + [x]
  {
  }

  lemma {:induction false} DedupIsValues(s: seq<string>)
    ensures Proper(RepeatsOf(s)) && Dedup(s) == Values(RepeatsOf(s))
  {
    if s == [] {
      assert Dedup(s) == [];
    } else {
      var n := |s| - 1;
      DedupIsValues(s[..n]);
      GroupedIsProper(RepeatsOf(s[..n]), s[n]);
      DedupUnfolds(s);
      assert n > 0 ==> s[..n][n - 1] == s[n - 1];
      hide Dedup, Values, Proper, Grouped;
    }
  }

  lemma DedupUnfolds(s: seq<string>)
    requires s != []
    ensures var n := |s| - 1;
            Dedup(s) == if n > 0 && s[n] == s[n - 1] then Dedup(s[..n]) else Dedup(s[..n]) + [s[n]]
  {
  }

  /** The value of every group of equal neighbours is kept, in order, and no two groups in a row have the same value. */
  lemma DedupKeepsValues(s: seq<string>)
    ensures Expand(RepeatsOf(s)) == s
    ensures Dedup(s) == Values(RepeatsOf(s)) && Proper(RepeatsOf(s))
  {
    hide *;
    RepeatsExpand(s);
    DedupIsValues(s);
  }

  ghost predicate Counted(counts: map<string, nat>, raws: seq<string>) {
    forall id :: (if id in counts then counts[id] else 0) == multiset(raws)[id]
  }

  lemma CountedOneMore(counts: map<string, nat>, raws: seq<string>, id: string)
    requires Counted(counts, raws)
    ensures Counted(counts[id := (if id in counts then counts[id] else 0) + 1], raws + [id])
  {
    assert multiset(raws + [id]) == multiset(raws) + multiset{id};
  }

  lemma KeptOneMore(records: seq<Record>, i: nat)
    requires i < |records|
    ensures Kept(records[..i + 1]) == Kept(records[..i]) + if IsNamed(records[i]) then [Row(i, records[i])] else []
  {
    assert records[..i + 1][..i] == records[..i];
  }

  lemma RawIdsOneMore(m: Mapping, rows: seq<Row>, row: Row)
    ensures RawIds(m, rows + [row]) == RawIds(m, rows) + [RawId(m, row)]
  {
    hide RawId;
  }

  lemma IdAtLonger(raws: seq<string>, raw: string, k: nat)
    requires k < |raws|
    ensures IdAt(raws + [raw], k) == IdAt(raws, k)
  {
    assert (raws + [raw])[..k] == raws[..k];
  }

  /** The entries made so far. */
  ghost predicate Made(m: Mapping, rows: seq<Row>, out: seq<Entry>) {
    |out| == |rows|
    && forall k :: 0 <= k < |rows| ==>
         IsNamed(rows[k].record) && out[k] == EntryOf(m, rows[k].record, IdAt(RawIds(m, rows), k))
  }

  lemma MadeOneMore(m: Mapping, rows: seq<Row>, out: seq<Entry>, row: Row)
    requires Made(m, rows, out) && IsNamed(row.record)
    ensures Made(m, rows + [row],
                 out + [EntryOf(m, row.record, IdAt(RawIds(m, rows) + [RawId(m, row)], |rows|))])
  {
    hide IsNamed, EntryOf, RawId, IdAt;
    RawIdsOneMore(m, rows, row);
    forall k | 0 <= k < |rows|
      ensures IdAt(RawIds(m, rows + [row]), k) == IdAt(RawIds(m, rows), k)
    {
      IdAtLonger(RawIds(m, rows), RawId(m, row), k);
    }
  }

  /** The loop over the feed: one entry for every named record, in order, under its suffixed identifier. */
  method ParseRecords(m: Mapping, records: seq<Record>) returns (out: seq<Entry>)
    ensures Made(m, Kept(records), out)
  {
    hide Made, EntryOf, RawId, Suffixed;
    var counts: map<string, nat> := map[];
    out := [];
    NothingMade(m);
    for i := 0 to |records|
      invariant Counted(counts, RawIds(m, Kept(records[..i])))
      invariant Made(m, Kept(records[..i]), out)
    {
      KeptOneMore(records, i);
      ghost var rows := Kept(records[..i]);
      if IsNamed(records[i]) {
        var row := Row(i, records[i]);
        var raw := RawId(m, row);
        var count := if raw in counts then counts[raw] else 0;
        var id := if count == 0 then raw else Suffixed(raw, count + 1);
        assert (RawIds(m, rows) + [raw])[..|rows|] == RawIds(m, rows);
        assert id == IdAt(RawIds(m, rows) + [raw], |rows|);
        CountedOneMore(counts, RawIds(m, rows), raw);
        RawIdsOneMore(m, rows, row);
        MadeOneMore(m, rows, out, row);
        counts := counts[raw := count + 1];
        out := out + [EntryOf(m, records[i], id)];
      } else {
        assert rows + [] == rows;
      }
    }
    assert records[..|records|] == records;
  }

  lemma NothingMade(m: Mapping)
    ensures Made(m, [], []) && Counted(map[], RawIds(m, []))
  {
  }

  // ----- are the identifiers distinct? -----

  /** Some raw identifier is spelled like the suffixed form of another one that occurs often enough. */
  ghost predicate Clash(raws: seq<string>) {
    exists u, r, n: nat :: u in raws && r in raws && 2 <= n <= multiset(raws)[r] && u == Suffixed(r, n)
  }

  ghost predicate DistinctIds(raws: seq<string>) {
    forall i, j :: 0 <= i < j < |raws| ==> IdAt(raws, i) != IdAt(raws, j)
  }

  /** The last `#` of a suffixed identifier is the one before the number. */
  lemma SuffixSplits(r: string, s: string, a: nat, b: nat)
    requires Suffixed(r, a) == Suffixed(s, b)
    ensures r == s && a == b
  {
    DecimalHasNoHash(a);
    DecimalHasNoHash(b);
    LastHash(r, Decimal(a), s, Decimal(b));
    DecimalInjective(a, b);
  }

  lemma LastHash(r: string, x: string, s: string, y: string)
    requires r + "#" + x == s + "#" + y && '#' !in x && '#' !in y
    ensures r == s && x == y
  {
    var t := r + "#" + x;
    HashAt(t, r, x);
    HashAt(t, s, y);
    assert r == t[..|r|] && s == t[..|s|];
    assert x == t[|r| + 1..] && y == t[|s| + 1..];
  }

  lemma HashAt(t: string, r: string, x: string)
    requires t == r + "#" + x && '#' !in x
    ensures |r| < |t| && t[|r|] == '#' && forall p :: |r| < p < |t| ==> t[p] != '#'
  {
    forall p | |r| < p < |t|
      ensures t[p] != '#'
    {
      assert t[p] == x[p - |r| - 1];
    }
  }

  lemma CountPrefix(raws: seq<string>, i: nat, j: nat)
    requires i < j <= |raws|
    ensures multiset(raws[..j])[raws[i]] >= multiset(raws[..i])[raws[i]] + 1
  {
    assert raws[..j] == raws[..i] + [raws[i]] + raws[i + 1..j];
  }

  lemma CountAll(raws: seq<string>, i: nat)
    requires i < |raws|
    ensures multiset(raws)[raws[i]] >= multiset(raws[..i])[raws[i]] + 1
  {
    CountPrefix(raws, i, |raws|);
    assert raws[..|raws|] == raws;
  }

  lemma SameIdClashes(raws: seq<string>, i: nat, j: nat)
    requires i < j < |raws| && IdAt(raws, i) == IdAt(raws, j)
    ensures Clash(raws)
  {
    CountPrefix(raws, i, j);
    CountAll(raws, i);
    CountAll(raws, j);
    var a, b := multiset(raws[..i])[raws[i]], multiset(raws[..j])[raws[j]];
    if a > 0 && b > 0 {
      SuffixSplits(raws[i], raws[j], a + 1, b + 1);
    } else if a > 0 {
      assert raws[j] in raws && raws[i] in raws && raws[j] == Suffixed(raws[i], a + 1);
    } else if b > 0 {
      assert raws[i] in raws && raws[j] in raws && raws[i] == Suffixed(raws[j], b + 1);
    }
  }

  lemma {:induction false} Occurrence(raws: seq<string>, r: string, n: nat) returns (k: nat)
    requires 1 <= n <= multiset(raws)[r]
    ensures k < |raws| && raws[k] == r && multiset(raws[..k])[r] == n - 1
  {
    var m := |raws| - 1;
    assert raws == raws[..m] + [raws[m]];
    if n <= multiset(raws[..m])[r] {
      k := Occurrence(raws[..m], r, n);
      assert raws[..m][..k] == raws[..k];
    } else {
      k := m;
    }
  }

  lemma ClashIsSameId(raws: seq<string>)
    requires Clash(raws)
    ensures !DistinctIds(raws)
  {
    var u, r, n: nat :| u in raws && r in raws && 2 <= n <= multiset(raws)[r] && u == Suffixed(r, n);
    assert u in multiset(raws);
    var i := Occurrence(raws, u, 1);
    var j := Occurrence(raws, r, n);
    assert IdAt(raws, i) == u && IdAt(raws, j) == Suffixed(r, n);
    assert |u| > |r|;
    assert i != j;
  }

  /** All identifiers are distinct if and only if no raw identifier is spelled like a suffix that gets handed out. */
  lemma IdsDistinct(raws: seq<string>)
    ensures DistinctIds(raws) <==> !Clash(raws)
  {
    if Clash(raws) {
      ClashIsSameId(raws);
    } else {
      forall i, j | 0 <= i < j < |raws|
        ensures IdAt(raws, i) != IdAt(raws, j)
      {
        if IdAt(raws, i) == IdAt(raws, j) {
          SameIdClashes(raws, i, j);
        }
      }
    }
  }

  /** In particular when no raw identifier contains a `#`. */
  lemma IdsWithoutHash(raws: seq<string>)
    requires forall r :: r in raws ==> '#' !in r
    ensures DistinctIds(raws)
  {
    IdsDistinct(raws);
    if Clash(raws) {
      ClashHasHash(raws);
    }
  }

  lemma ClashHasHash(raws: seq<string>)
    requires Clash(raws)
    ensures exists u :: u in raws && '#' in u
  {
    var u, r, n: nat :| u in raws && r in raws && 2 <= n <= multiset(raws)[r] && u == Suffixed(r, n);
    assert u[|r|] == '#';
  }

  /** A feed on which two entries end up with the same identifier. */
  lemma RepeatedId()
    ensures var raws := ["X#2", "X", "X"]; IdAt(raws, 0) == IdAt(raws, 2)
  {
    var raws := ["X#2", "X", "X"];
    assert raws[..0] == [] && raws[..2] == ["X#2", "X"];
    assert multiset(raws[..2])["X"] == 1;
    assert Decimal(2) == "2";
    assert Suffixed("X", 2) == "X#2";
  }

  // ----- the two lookups by identifier -----

  /** The scan of storage: the first entry with the identifier. */
  function FirstWithId(corpus: seq<Entry>, id: string): Option<nat> {
    if corpus == [] then None
    else
      var n := |corpus| - 1;
      var before := FirstWithId(corpus[..n], id);
      if before.Some? then before else if corpus[n].id == id then Some(n) else None
  }

  lemma {:induction false} FirstIsFirst(corpus: seq<Entry>, id: string)
    ensures var r := FirstWithId(corpus, id);
            if r.Some? then
              r.value < |corpus| && corpus[r.value].id == id && forall k :: 0 <= k < r.value ==> corpus[k].id != id
            else forall k :: 0 <= k < |corpus| ==> corpus[k].id != id
  {
    if corpus != [] {
      FirstIsFirst(corpus[..|corpus| - 1], id);
    }
  }

  lemma {:induction false} LastIsLast(corpus: seq<Entry>, id: string)
    ensures var r := LastWithId(corpus, id);
            if r.Some? then
              r.value < |corpus| && corpus[r.value].id == id && forall k :: r.value < k < |corpus| ==> corpus[k].id != id
            else forall k :: 0 <= k < |corpus| ==> corpus[k].id != id
  {
    if corpus != [] {
      LastIsLast(corpus[..|corpus| - 1], id);
    }
  }

  ghost predicate DistinctEntryIds(corpus: seq<Entry>) {
    forall i, j :: 0 <= i < j < |corpus| ==> corpus[i].id != corpus[j].id
  }

  ghost predicate SameLookups(corpus: seq<Entry>) {
    forall id :: LastWithId(corpus, id) == FirstWithId(corpus, id)
  }

  /** The index of the engine and the scan of storage name the same entry for every id, exactly when ids are distinct. */
  lemma LookupsAgree(corpus: seq<Entry>)
    ensures SameLookups(corpus) <==> DistinctEntryIds(corpus)
  {
    hide LastWithId, FirstWithId;
    if SameLookups(corpus) {
      forall i, j | 0 <= i < j < |corpus|
        ensures corpus[i].id != corpus[j].id
      {
        FirstIsFirst(corpus, corpus[i].id);
        LastIsLast(corpus, corpus[i].id);
      }
    }
    if DistinctEntryIds(corpus) {
      forall id
        ensures LastWithId(corpus, id) == FirstWithId(corpus, id)
      {
        FirstIsFirst(corpus, id);
        LastIsLast(corpus, id);
      }
    }
  }

  function EntryById(e: Engine, id: string): Option<Entry> {
    if id in e.byId && e.byId[id] < |e.entries| then Some(e.entries[e.byId[id]]) else None
  }

  function Get(corpus: seq<Entry>, id: string): Option<Entry> {
    var r := FirstWithId(corpus, id);
    if r.Some? && r.value < |corpus| then Some(corpus[r.value]) else None
  }

  /** After ingest of a feed without a clash, service and storage answer every identifier with the same entry. */
  lemma IngestedLookups(l: Language, m: Mapping, records: seq<Record>, corpus: seq<Entry>, e: Engine, id: string)
    requires Made(m, Kept(records), corpus) && IndexOf(l, e, corpus)
    requires !Clash(RawIds(m, Kept(records)))
    ensures EntryById(e, id) == Get(corpus, id)
  {
    hide Clash, RawIds, EntryOf, Kept;
    IdsDistinct(RawIds(m, Kept(records)));
    var raws := RawIds(m, Kept(records));
    EntryIds(m, Kept(records), corpus);
    LookupsAgree(corpus);
    FirstIsFirst(corpus, id);
    ByIdIsLast(l, e, corpus, id);
  }

  lemma EntryIds(m: Mapping, rows: seq<Row>, corpus: seq<Entry>)
    requires Made(m, rows, corpus)
    ensures forall k :: 0 <= k < |corpus| ==> corpus[k].id == IdAt(RawIds(m, rows), k)
  {
    hide IdAt, RawId;
  }

  lemma ByIdIsLast(l: Language, e: Engine, corpus: seq<Entry>, id: string)
    requires IndexOf(l, e, corpus)
    ensures e.entries == corpus && (if id in e.byId then Some(e.byId[id]) else None) == LastWithId(corpus, id)
  {
    hide LastWithId;
  }
}

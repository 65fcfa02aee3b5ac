/** What an ingested corpus says of the records of its feed, field by field, and that it finds them under their names. */
module Ingested {
  import opened Wrappers
  import opened Text
  import opened Corpus
  import opened Index
  import opened Ranking
  import opened Scoring
  import opened Ingest
  import opened StoreMeaning

  // ----- addresses -----

  /** A part of an address behind those before it. */
  function Behind(text: string, part: Option<string>): string {
    if part.None? || part.value == "" then text
    else if text == "" then part.value
    else text + ", " + part.value
  }

  /** The parts of an address that are present and not empty, from street to country, with a comma between two. */
  function AddressText(a: Address): string {
    Behind(Behind(Behind(Behind(Behind("", a.address), a.city), a.state), a.postalCode), a.country)
  }

  function JoinedFrom(text: string, parts: seq<Option<string>>): string
    decreases parts
  {
    if parts == [] then text else JoinedFrom(Behind(text, parts[0]), parts[1..])
  }

  lemma {:induction false} JoinsBehind(text: string, parts: seq<Option<string>>)
    ensures var rest := Join(NonEmptyParts(parts));
            JoinedFrom(text, parts) == if rest == "" then text else if text == "" then rest else text + ", " + rest
    ensures Join(NonEmptyParts(parts)) == "" <==> NonEmptyParts(parts) == []
    decreases parts
  {
    if parts != [] {
      JoinsBehind(Behind(text, parts[0]), parts[1..]);
      var rest := NonEmptyParts(parts[1..]);
      if parts[0].Some? && parts[0].value != "" {
        assert NonEmptyParts(parts) == [parts[0].value] + rest;
        assert ([parts[0].value] + rest)[1..] == rest;
        assert text != "" ==> text + ", " + parts[0].value + (", " + Join(rest)) == text + ", " + (parts[0].value + ", " + Join(rest));
      } else {
        assert NonEmptyParts(parts) == rest;
      }
    }
  }

  lemma FlatIsText(a: Address)
    ensures Flat(a) == AddressText(a)
  {
    hide Join, NonEmptyParts, Behind;
    var parts := [a.address, a.city, a.state, a.postalCode, a.country];
    JoinsBehind("", parts);
    FiveParts(a.address, a.city, a.state, a.postalCode, a.country);
  }

  lemma FiveParts(a: Option<string>, b: Option<string>, c: Option<string>, d: Option<string>, e: Option<string>)
    ensures JoinedFrom("", [a, b, c, d, e]) == Behind(Behind(Behind(Behind(Behind("", a), b), c), d), e)
  {
    hide Behind;
    var t1 := Behind("", a);
    var t2 := Behind(t1, b);
    var t3 := Behind(t2, c);
    var t4 := Behind(t3, d);
    assert [a, b, c, d, e][1..] == [b, c, d, e] && [b, c, d, e][1..] == [c, d, e] && [c, d, e][1..] == [d, e];
    assert [d, e][1..] == [e] && [e][1..] == [];
    assert JoinedFrom(t4, [e]) == Behind(t4, e);
    assert JoinedFrom(t2, [c, d, e]) == JoinedFrom(t3, [d, e]) == JoinedFrom(t4, [e]);
    assert JoinedFrom("", [a, b, c, d, e]) == JoinedFrom(t1, [b, c, d, e]) == JoinedFrom(t2, [c, d, e]);
  }

  function AddressTexts(addresses: seq<Address>): (r: seq<string>)
    ensures |r| == |addresses|
  {
    seq(|addresses|, i requires 0 <= i < |addresses| => AddressText(addresses[i]))
  }

  ghost function NotEmpty(texts: seq<string>): iset<nat> {
    iset k: nat | k < |texts| && texts[k] != ""
  }

  lemma OneTextMore(addresses: seq<Address>, n: nat)
    requires n + 1 == |addresses|
    ensures AddressTexts(addresses) == AddressTexts(addresses[..n]) + [AddressText(addresses[n])]
    ensures forall k: nat :: k < n ==> (k in NotEmpty(AddressTexts(addresses[..n])) <==> k in NotEmpty(AddressTexts(addresses)))
    ensures n in NotEmpty(AddressTexts(addresses)) <==> AddressText(addresses[n]) != ""
  {
    hide AddressText;
  }

  /** The addresses of an entry are the texts of the addresses of its record that are not empty, in order. */
  lemma {:induction false} AddressesSelect(addresses: seq<Address>) returns (at: seq<nat>)
    ensures Selects(FlatAddresses(addresses), AddressTexts(addresses), at, NotEmpty(AddressTexts(addresses)))
  {
    hide AddressText, Flat, AddressTexts, NotEmpty, Selects;
    at := [];
    if addresses == [] {
      NothingSelected();
      assert FlatAddresses(addresses) == [];
    } else {
      var n := |addresses| - 1;
      at := AddressesSelect(addresses[..n]);
      FlatIsText(addresses[n]);
      LastAddress(addresses);
      OneTextMore(addresses, n);
      var part, before, wanted := FlatAddresses(addresses[..n]), AddressTexts(addresses[..n]), NotEmpty(AddressTexts(addresses));
      SameSelection(part, before, at, NotEmpty(before), wanted);
      SelectsMore(part, before, at, wanted, AddressText(addresses[n]));
      assert part + [] == part;
      if AddressText(addresses[n]) != "" {
        at := at + [n];
      }
    }
  }

  lemma NothingSelected()
    ensures Selects([], AddressTexts([]), [], NotEmpty(AddressTexts([])))
  {
  }

  lemma {:induction false} LastAddress(addresses: seq<Address>)
    requires addresses != []
    ensures var n := |addresses| - 1;
            FlatAddresses(addresses)
            == FlatAddresses(addresses[..n]) + if Flat(addresses[n]) != "" then [Flat(addresses[n])] else []
  {
    hide Flat;
    var n := |addresses| - 1;
    if n == 0 {
      assert addresses[1..] == [] && addresses[..0] == [];
    } else {
      LastAddress(addresses[1..]);
      assert addresses[1..][..n - 1] == addresses[..n][1..];
    }
  }

  // ----- identifiers -----

  /** The value of a numeral, by its digits. */
  function ValueOf(s: string): int {
    if s == [] then 0 else 10 * ValueOf(s[..|s| - 1]) + (s[|s| - 1] as int - '0' as int)
  }

  /** Decimal numerals read back as their numbers, in digits only and without a zero in front. */
  lemma {:induction false} NumeralReadsBack(n: nat)
    ensures ValueOf(Decimal(n)) == n && Decimal(n) != [] && (n > 0 ==> Decimal(n)[0] != '0')
    ensures forall i :: 0 <= i < |Decimal(n)| ==> '0' <= Decimal(n)[i] <= '9'
  {
    DigitValue(n % 10);
    if n >= 10 {
      NumeralReadsBack(n / 10);
      assert Decimal(n)[..|Decimal(n)| - 1] == Decimal(n / 10);
    } else {
      assert [Digit(n)][..0] == [];
    }
  }

  lemma DigitValue(n: nat)
    requires n < 10
    ensures Digit(n) as int == '0' as int + n
  {
  }

  /** How many of the first `k` rows have the given raw identifier. */
  function Earlier(m: Mapping, rows: seq<Row>, k: nat, raw: string): nat
    requires k <= |rows|
  {
    if k == 0 then 0 else Earlier(m, rows, k - 1, raw) + if RawId(m, rows[k - 1]) == raw then 1 else 0
  }

  lemma {:induction false} EarlierCounts(m: Mapping, rows: seq<Row>, k: nat, raw: string)
    requires k <= |rows|
    ensures Earlier(m, rows, k, raw) == multiset(RawIds(m, rows)[..k])[raw]
  {
    hide RawId;
    if k > 0 {
      EarlierCounts(m, rows, k - 1, raw);
      assert RawIds(m, rows)[..k] == RawIds(m, rows)[..k - 1] + [RawId(m, rows[k - 1])];
    }
  }

  // ----- entries -----

  /** The source list of a record: the short code of its source, or the source itself when there is none. */
  ghost predicate IsSourceOf(m: Mapping, r: Record, source: string) {
    var raw := if r.source.None? then "Unknown" else r.source.value;
    source == if m.shortCode(raw).None? then raw else m.shortCode(raw).value
  }

  /** The identifier of a record, or one made of its source and its position in the feed. */
  ghost predicate IsRawIdOf(m: Mapping, row: Row, id: string) {
    if row.record.id.Some? then id == row.record.id.value
    else exists source, digits :: IsSourceOf(m, row.record, source) && id == source + "-" + digits
                                  && digits == Decimal(row.position)
  }

  /** What an entry says of its record, but for the identifier. */
  ghost predicate SaysOf(m: Mapping, e: Entry, r: Record) {
    && r.name == Some(e.name) && e.aliases == r.altNames && e.programs == r.programs && IsSourceOf(m, r, e.sourceList)
    && e.entityType == m.entityType(if r.kind.None? then "" else r.kind.value)
    && (exists at :: Selects(e.addresses, AddressTexts(r.addresses), at, NotEmpty(AddressTexts(r.addresses))))
    && (exists groups :: Proper(groups) && e.nationalities == Values(groups)
                         && Expand(groups) == r.nationalities + r.citizenships)
  }

  lemma EntrySays(m: Mapping, r: Record, id: string)
    requires IsNamed(r)
    ensures SaysOf(m, EntryOf(m, r, id), r) && EntryOf(m, r, id).id == id
  {
    hide FlatAddresses, Dedup, AddressTexts, Proper, Values, Expand, Selects;
    var at := AddressesSelect(r.addresses);
    DedupKeepsValues(r.nationalities + r.citizenships);
  }

  /** Every entry says what its record does, under its raw identifier or, if that was taken, with its number in the feed. */
  lemma EntriesSay(m: Mapping, records: seq<Record>, corpus: seq<Entry>, k: nat) returns (raw: string)
    requires Made(m, Kept(records), corpus) && k < |corpus|
    ensures |corpus| == |Kept(records)| && SaysOf(m, corpus[k], Kept(records)[k].record)
    ensures IsRawIdOf(m, Kept(records)[k], raw)
    ensures var before := Earlier(m, Kept(records), k, raw);
            corpus[k].id == if before == 0 then raw else raw + "#" + Decimal(before + 1)
  {
    hide SaysOf, EntryOf, Kept, Earlier;
    var rows := Kept(records);
    raw := RawIds(m, rows)[k];
    EarlierCounts(m, rows, k, raw);
    EntrySays(m, rows[k].record, IdAt(RawIds(m, rows), k));
  }

  /** Under its name and each of its alternative names, the entry of a record is an exact match. */
  lemma IngestedNamesMatch(l: Language, m: Mapping, records: seq<Record>, corpus: seq<Entry>, k: nat, name: string)
    requires Made(m, Kept(records), corpus) && k < |corpus| == |Kept(records)|
    requires var r := Kept(records)[k].record; r.name == Some(name) || name in r.altNames
    requires l.normalize(name) != []
    ensures IsExact(l, corpus[k], name)
  {
    hide IsExact, Kept;
    var raw := EntriesSay(m, records, corpus, k);
    ExactMeansSameName(l, corpus[k], name);
  }
}

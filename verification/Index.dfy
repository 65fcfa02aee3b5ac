/** The search index: what it must hold for a corpus, and the loops that build it. */
module Index {
  import opened Wrappers
  import opened Sorting
  import opened Text
  import opened Corpus

  datatype Posting = Posting(doc: nat, tf: nat)

  datatype Surface = Surface(text: string, doc: nat)

  datatype Engine = Engine(
    entries: seq<Entry>,
    byId: map<string, nat>,
    inverted: map<string, seq<Posting>>,
    trigram: map<string, seq<nat>>,
    docLens: seq<nat>,
    avgDocLen: real,
    surfaces: seq<seq<string>>,
    prefix: map<char, seq<Surface>>,
    thresholds: Thresholds
  )

  // ----- the corpus, read record by record -----

  function Fields(e: Entry): seq<string> {
    [e.name] + e.aliases + e.addresses + e.nationalities + e.programs
  }

  function TokensOf(l: Language, fields: seq<string>): seq<string> {
    if fields == [] then []
    else TokensOf(l, fields[..|fields| - 1]) + Tokenize(l, fields[|fields| - 1])
  }

  function DocTokens(l: Language, e: Entry): seq<string> {
    TokensOf(l, Fields(e))
  }

  function Normalized(l: Language, names: seq<string>): (r: seq<string>)
    ensures |r| == |names|
  {
    seq(|names|, i requires 0 <= i < |names| => l.normalize(names[i]))
  }

  function Surfaces(l: Language, e: Entry): seq<string> {
    Normalized(l, [e.name] + e.aliases)
  }

  /** The surface forms of a record are its normalised name and aliases. */
  lemma SurfacesAreNames(l: Language, e: Entry, s: string)
    ensures s in Surfaces(l, e) <==> exists a :: (a == e.name || a in e.aliases) && s == l.normalize(a)
  {
    var names := [e.name] + e.aliases;
    if s in Surfaces(l, e) {
      var i :| 0 <= i < |names| && Surfaces(l, e)[i] == s;
      assert names[i] == e.name || names[i] in e.aliases;
    }
    if a :| (a == e.name || a in e.aliases) && s == l.normalize(a) {
      assert a in names;
      var i :| 0 <= i < |names| && names[i] == a;
      assert Surfaces(l, e)[i] == s;
    }
  }

  predicate AnyHasGram(l: Language, surfaces: seq<string>, gram: string) {
    exists s :: s in surfaces && gram in Trigrams(l, s)
  }

  predicate HasGram(l: Language, e: Entry, gram: string) {
    AnyHasGram(l, Surfaces(l, e), gram)
  }

  predicate RecordHasGram(l: Language, corpus: seq<Entry>, doc: nat, gram: string) {
    doc < |corpus| && HasGram(l, corpus[doc], gram)
  }

  // ----- what each part of the index must be -----

  function Lookup<K, T>(m: map<K, seq<T>>, k: K): seq<T> {
    if k in m then m[k] else []
  }

  /** One posting for every record with the term, in corpus order, with the number of its occurrences. */
  function PostingsOf(l: Language, corpus: seq<Entry>, term: string): seq<Posting> {
    if corpus == [] then []
    else
      var n := |corpus| - 1;
      PostingsOf(l, corpus[..n], term) + PostingOf(l, corpus[n], n, term)
  }

  function PostingOf(l: Language, e: Entry, doc: nat, term: string): seq<Posting> {
    var tf := multiset(DocTokens(l, e))[term];
    if tf > 0 then [Posting(doc, tf)] else []
  }

  function StartingWith(surfaces: seq<string>, doc: nat, c: char): seq<Surface> {
    if surfaces == [] then []
    else
      var n := |surfaces| - 1;
      StartingWith(surfaces[..n], doc, c)
      + if surfaces[n] != [] && surfaces[n][0] == c then [Surface(surfaces[n], doc)] else []
  }

  function Bucket(l: Language, corpus: seq<Entry>, c: char): seq<Surface> {
    if corpus == [] then []
    else
      var n := |corpus| - 1;
      Bucket(l, corpus[..n], c) + StartingWith(Surfaces(l, corpus[n]), n, c)
  }

  function LastWithId(corpus: seq<Entry>, id: string): Option<nat> {
    if corpus == [] then None
    else if corpus[|corpus| - 1].id == id then Some(|corpus| - 1)
    else LastWithId(corpus[..|corpus| - 1], id)
  }

  function TotalLength(lens: seq<nat>): nat {
    if lens == [] then 0 else TotalLength(lens[..|lens| - 1]) + lens[|lens| - 1]
  }

  function AverageLength(lens: seq<nat>): real {
    if lens == [] then 0.0 else TotalLength(lens) as real / |lens| as real
  }

  predicate PostingLe(a: Posting, b: Posting) {
    a.doc <= b.doc
  }

  predicate SurfaceLe(a: Surface, b: Surface) {
    StringLe(a.text, b.text)
  }

  predicate NatLe(a: nat, b: nat) {
    a <= b
  }

  ghost predicate StrictlyIncreasing(s: seq<nat>) {
    forall i, j :: 0 <= i < j < |s| ==> s[i] < s[j]
  }

  /** The lists of records per gram: strictly increasing and complete. */
  ghost predicate GramLists(l: Language, trigram: map<string, seq<nat>>, corpus: seq<Entry>) {
    && (forall g :: StrictlyIncreasing(Lookup(trigram, g)))
    && (forall g, d: nat :: d in Lookup(trigram, g) <==> RecordHasGram(l, corpus, d, g))
  }

  ghost predicate DocTables(l: Language, e: Engine, corpus: seq<Entry>) {
    && |e.docLens| == |e.surfaces| == |corpus|
    && (forall d :: 0 <= d < |corpus| ==> e.docLens[d] == |DocTokens(l, corpus[d])|)
    && (forall d :: 0 <= d < |corpus| ==> e.surfaces[d] == Surfaces(l, corpus[d]))
    && e.avgDocLen == AverageLength(e.docLens)
  }

  /** `e` is an index of exactly this corpus. */
  ghost predicate IndexOf(l: Language, e: Engine, corpus: seq<Entry>) {
    && e.entries == corpus
    && e.thresholds == DEFAULT_THRESHOLDS
    && DocTables(l, e, corpus)
    && (forall t :: Lookup(e.inverted, t) == PostingsOf(l, corpus, t))
    && GramLists(l, e.trigram, corpus)
    && (forall c :: Lookup(e.prefix, c) == StableSort(Bucket(l, corpus, c), SurfaceLe))
    && (forall id :: (if id in e.byId then Some(e.byId[id]) else None) == LastWithId(corpus, id))
  }

  // ----- counting the tokens of one record -----

  ghost predicate Counts(tf: map<string, nat>, tokens: seq<string>) {
    && (forall t :: t in tf <==> t in tokens)
    && (forall t :: t in tf ==> tf[t] == multiset(tokens)[t])
  }

  lemma CountsOneMore(tf: map<string, nat>, tokens: seq<string>, t: string)
    requires Counts(tf, tokens)
    ensures Counts(tf[t := (if t in tf then tf[t] else 0) + 1], tokens + [t])
  {
    assert multiset(tokens + [t]) == multiset(tokens) + multiset{t};
    assert t !in tf ==> t !in multiset(tokens);
  }

  /** Adds the tokens of one field to the counts of its record. */
  method Feed(l: Language, field: string, tf: map<string, nat>, total: nat, ghost fed: seq<string>)
    returns (tf': map<string, nat>, total': nat)
    requires Counts(tf, fed) && total == |fed|
    ensures Counts(tf', fed + Tokenize(l, field)) && total' == |fed| + |Tokenize(l, field)|
  {
    var tokens := Tokenize(l, field);
    tf', total' := tf, total;
    assert fed + tokens[..0] == fed;
    for i := 0 to |tokens|
      invariant Counts(tf', fed + tokens[..i]) && total' == |fed| + i
    {
      CountsOneMore(tf', fed + tokens[..i], tokens[i]);
      assert fed + tokens[..i] + [tokens[i]] == fed + tokens[..i + 1];
      tf' := tf'[tokens[i] := (if tokens[i] in tf' then tf'[tokens[i]] else 0) + 1];
      total' := total' + 1;
    }
    assert tokens[..|tokens|] == tokens;
  }

  lemma TokensOfOneMore(l: Language, fields: seq<string>, field: string)
    ensures TokensOf(l, fields + [field]) == TokensOf(l, fields) + Tokenize(l, field)
  {
    assert (fields + [field])[..|fields|] == fields;
  }

  method FeedAll(l: Language, fields: seq<string>, tf: map<string, nat>, total: nat, ghost fed: seq<string>)
    returns (tf': map<string, nat>, total': nat)
    requires Counts(tf, TokensOf(l, fed)) && total == |TokensOf(l, fed)|
    ensures Counts(tf', TokensOf(l, fed + fields)) && total' == |TokensOf(l, fed + fields)|
  {
    hide Counts, Tokenize;
    tf', total' := tf, total;
    assert fed + fields[..0] == fed;
    for i := 0 to |fields|
      invariant Counts(tf', TokensOf(l, fed + fields[..i])) && total' == |TokensOf(l, fed + fields[..i])|
    {
      tf', total' := Feed(l, fields[i], tf', total', TokensOf(l, fed + fields[..i]));
      TokensOfOneMore(l, fed + fields[..i], fields[i]);
      assert fed + fields[..i] + [fields[i]] == fed + fields[..i + 1];
    }
    assert fields[..|fields|] == fields;
  }

  method CountTokens(l: Language, e: Entry) returns (tf: map<string, nat>, total: nat)
    ensures Counts(tf, DocTokens(l, e)) && total == |DocTokens(l, e)|
  {
    tf, total := FeedAll(l, [e.name], map[], 0, []);
    assert [] + [e.name] == [e.name];
    tf, total := FeedAll(l, e.aliases, tf, total, [e.name]);
    tf, total := FeedAll(l, e.addresses, tf, total, [e.name] + e.aliases);
    tf, total := FeedAll(l, e.nationalities, tf, total, [e.name] + e.aliases + e.addresses);
    tf, total := FeedAll(l, e.programs, tf, total, [e.name] + e.aliases + e.addresses + e.nationalities);
  }

  method NormalizeSurfaces(l: Language, e: Entry) returns (surfaces: seq<string>)
    ensures surfaces == Surfaces(l, e)
  {
    surfaces := [l.normalize(e.name)];
    for i := 0 to |e.aliases|
      invariant surfaces == Normalized(l, [e.name] + e.aliases[..i])
    {
      surfaces := surfaces + [l.normalize(e.aliases[i])];
    }
    assert e.aliases[..|e.aliases|] == e.aliases;
  }

  // ----- adding one record to the tables -----

  method Append<K(==), T>(m: map<K, seq<T>>, k: K, x: T) returns (m': map<K, seq<T>>)
    ensures forall j :: Lookup(m', j) == Lookup(m, j) + if j == k then [x] else []
  {
    m' := m[k := Lookup(m, k) + [x]];
  }

  /** One posting per term of the record, the terms taken in any order. */
  method AddPostings(inverted: map<string, seq<Posting>>, doc: nat, tf: map<string, nat>)
    returns (inverted': map<string, seq<Posting>>)
    ensures forall t :: Lookup(inverted', t) == Lookup(inverted, t) + if t in tf then [Posting(doc, tf[t])] else []
  {
    hide Lookup;
    inverted' := inverted;
    var rest := tf.Keys;
    while rest != {}
      invariant rest <= tf.Keys
      invariant forall t :: Lookup(inverted', t)
                            == Lookup(inverted, t) + if t in tf && t !in rest then [Posting(doc, tf[t])] else []
      decreases |rest|
    {
      var t :| t in rest;
      inverted' := Append(inverted', t, Posting(doc, tf[t]));
      rest := rest - {t};
    }
  }

  function Docs(sets: map<string, set<nat>>, gram: string): set<nat> {
    if gram in sets then sets[gram] else {}
  }

  lemma AnyHasGramOneMore(l: Language, surfaces: seq<string>, s: string, gram: string)
    ensures AnyHasGram(l, surfaces + [s], gram) <==> AnyHasGram(l, surfaces, gram) || gram in Trigrams(l, s)
  {
    hide Trigrams;
    if AnyHasGram(l, surfaces, gram) {
      var t :| t in surfaces && gram in Trigrams(l, t);
      assert t in surfaces + [s];
    }
    assert s in surfaces + [s];
  }

  lemma NoneHasGram(l: Language)
    ensures forall g :: !AnyHasGram(l, [], g)
  {
  }

  method AddGramsOf(grams: seq<string>, sets: map<string, set<nat>>, doc: nat) returns (sets': map<string, set<nat>>)
    ensures forall g :: Docs(sets', g) == Docs(sets, g) + if g in grams then {doc} else {}
  {
    sets' := sets;
    for j := 0 to |grams|
      invariant forall g :: Docs(sets', g) == Docs(sets, g) + if g in grams[..j] then {doc} else {}
    {
      sets' := sets'[grams[j] := Docs(sets', grams[j]) + {doc}];
      assert grams[..j + 1] == grams[..j] + [grams[j]];
    }
    assert grams[..|grams|] == grams;
  }

  method AddGrams(l: Language, sets: map<string, set<nat>>, doc: nat, surfaces: seq<string>)
    returns (sets': map<string, set<nat>>)
    ensures forall g :: Docs(sets', g) == Docs(sets, g) + if AnyHasGram(l, surfaces, g) then {doc} else {}
  {
    hide AnyHasGram, Docs, Trigrams;
    sets' := sets;
    NoneHasGram(l);
    for i := 0 to |surfaces|
      invariant forall g :: Docs(sets', g) == Docs(sets, g) + if AnyHasGram(l, surfaces[..i], g) then {doc} else {}
    {
      sets' := AddGramsOf(Trigrams(l, surfaces[i]), sets', doc);
      forall g
        ensures Docs(sets', g) == Docs(sets, g) + if AnyHasGram(l, surfaces[..i + 1], g) then {doc} else {}
      {
        assert surfaces[..i + 1] == surfaces[..i] + [surfaces[i]];
        AnyHasGramOneMore(l, surfaces[..i], surfaces[i], g);
      }
    }
    assert surfaces[..|surfaces|] == surfaces;
  }

  method AddPrefix(prefix: map<char, seq<Surface>>, doc: nat, surface: string) returns (prefix': map<char, seq<Surface>>)
    ensures forall c :: Lookup(prefix', c)
                        == Lookup(prefix, c) + if surface != [] && surface[0] == c then [Surface(surface, doc)] else []
  {
    prefix' := prefix;
    if surface != [] {
      prefix' := Append(prefix, surface[0], Surface(surface, doc));
    }
  }

  method AddPrefixes(prefix: map<char, seq<Surface>>, doc: nat, surfaces: seq<string>)
    returns (prefix': map<char, seq<Surface>>)
    ensures forall c :: Lookup(prefix', c) == Lookup(prefix, c) + StartingWith(surfaces, doc, c)
  {
    hide StartingWith, Lookup;
    prefix' := prefix;
    NoneStarting(doc);
    for i := 0 to |surfaces|
      invariant forall c :: Lookup(prefix', c) == Lookup(prefix, c) + StartingWith(surfaces[..i], doc, c)
    {
      prefix' := AddPrefix(prefix', doc, surfaces[i]);
      forall c
        ensures Lookup(prefix', c) == Lookup(prefix, c) + StartingWith(surfaces[..i + 1], doc, c)
      {
        StartingWithOneMore(surfaces, i, doc, c);
      }
    }
    assert surfaces[..|surfaces|] == surfaces;
  }

  lemma NoneStarting(doc: nat)
    ensures forall c :: StartingWith([], doc, c) == []
  {
  }

  lemma StartingWithOneMore(surfaces: seq<string>, i: nat, doc: nat, c: char)
    requires i < |surfaces|
    ensures StartingWith(surfaces[..i + 1], doc, c)
            == StartingWith(surfaces[..i], doc, c)
               + if surfaces[i] != [] && surfaces[i][0] == c then [Surface(surfaces[i], doc)] else []
  {
    assert surfaces[..i + 1][..i] == surfaces[..i];
  }

  /** The elements of a set, collected in any order and then sorted. */
  method SortedElements(s: set<nat>) returns (v: seq<nat>)
    ensures StrictlyIncreasing(v)
    ensures forall x :: x in v <==> x in s
  {
    var collected: seq<nat> := [];
    var rest := s;
    while rest != {}
      invariant rest <= s && NoDuplicates(collected)
      invariant forall x :: x in collected <==> x in s && x !in rest
      decreases |rest|
    {
      var x :| x in rest;
      collected := collected + [x];
      rest := rest - {x};
    }
    v := StableSort(collected, NatLe);
    SortElements(collected, NatLe);
    SameElements(v, collected);
    SortSorts(collected, NatLe);
    SortKeepsDistinct(collected, NatLe);
    forall i, j | 0 <= i < j < |v|
      ensures v[i] < v[j]
    {
      assert NatLe(v[i], v[j]) && v[i] != v[j];
    }
  }

  method Flatten(sets: map<string, set<nat>>) returns (lists: map<string, seq<nat>>)
    ensures forall g :: StrictlyIncreasing(Lookup(lists, g))
    ensures forall g, d: nat :: d in Lookup(lists, g) <==> d in Docs(sets, g)
  {
    lists := map[];
    var rest := sets.Keys;
    while rest != {}
      invariant rest <= sets.Keys
      invariant forall g :: g in lists ==> StrictlyIncreasing(lists[g])
      invariant forall g, d: nat :: d in Lookup(lists, g) <==> g !in rest && d in Docs(sets, g)
      decreases |rest|
    {
      var g :| g in rest;
      var v := SortedElements(sets[g]);
      lists := lists[g := v];
      rest := rest - {g};
    }
  }

  method IdMap(corpus: seq<Entry>) returns (byId: map<string, nat>)
    ensures forall id :: (if id in byId then Some(byId[id]) else None) == LastWithId(corpus, id)
  {
    byId := map[];
    for i := 0 to |corpus|
      invariant forall id :: (if id in byId then Some(byId[id]) else None) == LastWithId(corpus[..i], id)
    {
      byId := byId[corpus[i].id := i];
      assert corpus[..i + 1][..i] == corpus[..i];
    }
    assert corpus[..|corpus|] == corpus;
  }

  // ----- building -----

  lemma {:induction false} PostingsInOrder(l: Language, corpus: seq<Entry>, term: string)
    ensures forall p :: p in PostingsOf(l, corpus, term) ==> p.doc < |corpus|
    ensures forall i, j :: 0 <= i < j < |PostingsOf(l, corpus, term)| ==>
      PostingsOf(l, corpus, term)[i].doc < PostingsOf(l, corpus, term)[j].doc
  {
    if corpus != [] {
      hide DocTokens;
      PostingsInOrder(l, corpus[..|corpus| - 1], term);
    }
  }

  lemma PostingsAreSorted(l: Language, corpus: seq<Entry>, term: string)
    ensures StableSort(PostingsOf(l, corpus, term), PostingLe) == PostingsOf(l, corpus, term)
  {
    PostingsInOrder(l, corpus, term);
    SortedIsFixed(PostingsOf(l, corpus, term), PostingLe);
  }

  lemma CountedPosting(l: Language, e: Entry, doc: nat, tf: map<string, nat>, term: string)
    requires Counts(tf, DocTokens(l, e))
    ensures PostingOf(l, e, doc, term) == if term in tf then [Posting(doc, tf[term])] else []
  {
    assert term in DocTokens(l, e) <==> term in multiset(DocTokens(l, e));
  }

  /** The tables while they grow: the grams still map to sets, and nothing is sorted yet. */
  datatype Tables = Tables(
    inverted: map<string, seq<Posting>>,
    sets: map<string, set<nat>>,
    docLens: seq<nat>,
    surfaces: seq<seq<string>>,
    prefix: map<char, seq<Surface>>
  )

  ghost predicate PostingsReady(l: Language, t: Tables, corpus: seq<Entry>) {
    forall term :: Lookup(t.inverted, term) == PostingsOf(l, corpus, term)
  }

  ghost predicate GramsReady(l: Language, t: Tables, corpus: seq<Entry>) {
    forall g, d: nat :: d in Docs(t.sets, g) <==> RecordHasGram(l, corpus, d, g)
  }

  ghost predicate PrefixesReady(l: Language, t: Tables, corpus: seq<Entry>) {
    forall c :: Lookup(t.prefix, c) == Bucket(l, corpus, c)
  }

  ghost predicate DocsReady(l: Language, t: Tables, corpus: seq<Entry>) {
    && |t.docLens| == |t.surfaces| == |corpus|
    && (forall d :: 0 <= d < |corpus| ==> t.docLens[d] == |DocTokens(l, corpus[d])|)
    && (forall d :: 0 <= d < |corpus| ==> t.surfaces[d] == Surfaces(l, corpus[d]))
  }

  ghost predicate TablesOf(l: Language, t: Tables, corpus: seq<Entry>) {
    PostingsReady(l, t, corpus) && GramsReady(l, t, corpus) && PrefixesReady(l, t, corpus) && DocsReady(l, t, corpus)
  }

  lemma PostingsGrow(l: Language, t: Tables, t': Tables, corpus: seq<Entry>, e: Entry, tf: map<string, nat>)
    requires PostingsReady(l, t, corpus) && Counts(tf, DocTokens(l, e))
    requires forall term ::
               Lookup(t'.inverted, term)
               == Lookup(t.inverted, term) + if term in tf then [Posting(|corpus|, tf[term])] else []
    ensures PostingsReady(l, t', corpus + [e])
  {
    hide Counts, DocTokens, PostingsOf, PostingOf, Lookup;
    forall term
      ensures Lookup(t'.inverted, term) == PostingsOf(l, corpus + [e], term)
    {
      CountedPosting(l, e, |corpus|, tf, term);
      PostingsOneMore(l, corpus, e, term);
    }
  }

  lemma PostingsOneMore(l: Language, corpus: seq<Entry>, e: Entry, term: string)
    ensures PostingsOf(l, corpus + [e], term) == PostingsOf(l, corpus, term) + PostingOf(l, e, |corpus|, term)
  {
    assert (corpus + [e])[..|corpus|] == corpus;
  }

  /** One turn of the loop over the corpus. */
  method AddRecord(l: Language, t: Tables, doc: nat, e: Entry, ghost before: seq<Entry>) returns (t': Tables)
    requires TablesOf(l, t, before) && doc == |before|
    ensures TablesOf(l, t', before + [e])
  {
    hide AnyHasGram, Counts, PostingsOf, DocTokens, StartingWith;
    var names := NormalizeSurfaces(l, e);
    var tf, total := CountTokens(l, e);
    var inverted := AddPostings(t.inverted, doc, tf);
    var sets := AddGrams(l, t.sets, doc, names);
    var prefix := AddPrefixes(t.prefix, doc, names);
    t' := Tables(inverted, sets, t.docLens + [total], t.surfaces + [names], prefix);
    PostingsGrow(l, t, t', before, e, tf);
    GramsGrow(l, t, t', before, e);
    assert (before + [e])[..doc] == before;
  }

  lemma GramsGrow(l: Language, t: Tables, t': Tables, corpus: seq<Entry>, e: Entry)
    requires GramsReady(l, t, corpus)
    requires forall g ::
               Docs(t'.sets, g) == Docs(t.sets, g) + if AnyHasGram(l, Surfaces(l, e), g) then {|corpus|} else {}
    ensures GramsReady(l, t', corpus + [e])
  {
    forall g, d: nat
      ensures d in Docs(t'.sets, g) <==> RecordHasGram(l, corpus + [e], d, g)
    {
      assert d in Docs(t.sets, g) <==> RecordHasGram(l, corpus, d, g);
      hide GramsReady, AnyHasGram, Surfaces, Docs;
      if d < |corpus| {
        assert (corpus + [e])[d] == corpus[d];
      } else if d == |corpus| {
        assert (corpus + [e])[d] == e;
      }
    }
  }

  method Build(l: Language, corpus: seq<Entry>) returns (e: Engine)
    ensures IndexOf(l, e, corpus)
  {
    hide HasGram, PostingsOf, DocTokens, Surfaces, Bucket, LastWithId, StableSort, DocTables, GramLists, Lookup,
      PostingsReady, GramsReady, PrefixesReady, DocsReady, TotalLength, StrictlyIncreasing, Docs;
    var t := Tables(map[], map[], [], [], map[]);
    EmptyTables(l, t);
    for i := 0 to |corpus|
      invariant TablesOf(l, t, corpus[..i])
    {
      t := AddRecord(l, t, i, corpus[i], corpus[..i]);
      assert corpus[..i] + [corpus[i]] == corpus[..i + 1];
    }
    assert corpus[..|corpus|] == corpus;
    var avg := if |corpus| == 0 then 0.0 else TotalLength(t.docLens) as real / |corpus| as real;
    var inverted := SortValues(t.inverted, PostingLe);
    var prefix := SortValues(t.prefix, SurfaceLe);
    var trigram := Flatten(t.sets);
    var byId := IdMap(corpus);
    e := Engine(corpus, byId, inverted, trigram, t.docLens, avg, t.surfaces, prefix, DEFAULT_THRESHOLDS);
    SortedPostings(l, t, inverted, corpus);
    SortedPrefixes(l, t, prefix, corpus);
    FlatGrams(l, t, trigram, corpus);
    DocTablesOf(l, t, e, corpus);
  }

  lemma SortedPostings(l: Language, t: Tables, inverted: map<string, seq<Posting>>, corpus: seq<Entry>)
    requires PostingsReady(l, t, corpus) && inverted.Keys == t.inverted.Keys
    requires forall term :: term in t.inverted ==> inverted[term] == StableSort(t.inverted[term], PostingLe)
    ensures forall term :: Lookup(inverted, term) == PostingsOf(l, corpus, term)
  {
    hide PostingsOf, StableSort;
    forall term
      ensures Lookup(inverted, term) == PostingsOf(l, corpus, term)
    {
      PostingsAreSorted(l, corpus, term);
      assert Lookup(t.inverted, term) == PostingsOf(l, corpus, term);
    }
  }

  lemma SortedPrefixes(l: Language, t: Tables, prefix: map<char, seq<Surface>>, corpus: seq<Entry>)
    requires PrefixesReady(l, t, corpus) && prefix.Keys == t.prefix.Keys
    requires forall c :: c in t.prefix ==> prefix[c] == StableSort(t.prefix[c], SurfaceLe)
    ensures forall c :: Lookup(prefix, c) == StableSort(Bucket(l, corpus, c), SurfaceLe)
  {
    hide Bucket;
    forall c
      ensures Lookup(prefix, c) == StableSort(Bucket(l, corpus, c), SurfaceLe)
    {
      assert Lookup(t.prefix, c) == Bucket(l, corpus, c);
    }
  }

  lemma FlatGrams(l: Language, t: Tables, trigram: map<string, seq<nat>>, corpus: seq<Entry>)
    requires GramsReady(l, t, corpus)
    requires forall g :: StrictlyIncreasing(Lookup(trigram, g))
    requires forall g, d: nat :: d in Lookup(trigram, g) <==> d in Docs(t.sets, g)
    ensures GramLists(l, trigram, corpus)
  {
    hide RecordHasGram, StrictlyIncreasing, Lookup, Docs;
  }

  lemma DocTablesOf(l: Language, t: Tables, e: Engine, corpus: seq<Entry>)
    requires DocsReady(l, t, corpus) && e.docLens == t.docLens && e.surfaces == t.surfaces
    requires e.avgDocLen == if |corpus| == 0 then 0.0 else TotalLength(t.docLens) as real / |corpus| as real
    ensures DocTables(l, e, corpus)
  {
    hide Surfaces, DocTokens, TotalLength;
  }

  lemma EmptyTables(l: Language, t: Tables)
    requires t == Tables(map[], map[], [], [], map[])
    ensures TablesOf(l, t, [])
  {
    assert forall g :: Docs(t.sets, g) == {};
  }
}

/** Suggestions for a prefix: a walk over one bucket finds what a sort of all surface forms would. */
module Autocomplete {
  import opened Sorting
  import opened Text
  import opened Corpus
  import opened Index

  predicate StartsWith(s: string, prefix: string) {
    |prefix| <= |s| && s[..|prefix|] == prefix
  }

  /** A name or alias of some record that, normalised, starts with the prefix. */
  ghost predicate Suggestible(l: Language, corpus: seq<Entry>, prefix: string, s: string) {
    prefix <= s && exists e, a :: e in corpus && (a == e.name || a in e.aliases) && s == l.normalize(a)
  }

  /** In the order of a dictionary, no text twice. */
  ghost predicate StrictlySorted(list: seq<string>) {
    forall i, j :: 0 <= i < j < |list| ==> Precedes(list[i], list[j])
  }

  ghost predicate Ascending(list: seq<string>) {
    forall i, j :: 0 <= i < j < |list| ==> StringLe(list[i], list[j]) && list[i] != list[j]
  }

  lemma AscendingIsSorted(list: seq<string>)
    ensures StrictlySorted(list) <==> Ascending(list)
  {
    hide StringLe, Precedes;
    forall i, j | 0 <= i < j < |list|
      ensures Precedes(list[i], list[j]) <==> StringLe(list[i], list[j]) && list[i] != list[j]
    {
      StringLeIsDictionary(list[i], list[j]);
      SelfDoesNotPrecede(list[i]);
    }
  }

  lemma SelfDoesNotPrecede(s: string)
    ensures !Precedes(s, s)
  {
  }

  /** The sorted list without duplicates of all suggestible surface forms. */
  ghost predicate AllSuggestions(l: Language, corpus: seq<Entry>, prefix: string, all: seq<string>) {
    StrictlySorted(all) && forall s :: s in all <==> Suggestible(l, corpus, prefix, s)
  }

  /** There is only one such list. */
  lemma SuggestionsUnique(l: Language, corpus: seq<Entry>, prefix: string, a: seq<string>, b: seq<string>)
    requires AllSuggestions(l, corpus, prefix, a) && AllSuggestions(l, corpus, prefix, b)
    ensures a == b
  {
    hide Suggestible;
    AscendingIsSorted(a);
    AscendingIsSorted(b);
    SortedUnique(a, b);
  }

  lemma {:induction false} SortedUnique(a: seq<string>, b: seq<string>)
    requires Ascending(a) && Ascending(b) && forall s :: s in a <==> s in b
    ensures a == b
  {
    hide StringLe;
    assert (a != [] ==> a[0] in a) && (b != [] ==> b[0] in b);
    if a != [] && b != [] {
      var m, n := |a| - 1, |b| - 1;
      assert a[m] in b && b[n] in a;
      SortedLast(a, b[n]);
      SortedLast(b, a[m]);
      StringLeTotal(a[m], b[n]);
      assert a[m] == b[n];
      WithoutLast(a);
      WithoutLast(b);
      assert forall s :: s in a[..m] <==> s in a && s != a[m];
      assert forall s :: s in b[..n] <==> s in b && s != b[n];
      SortedUnique(a[..m], b[..n]);
      assert a == a[..m] + [a[m]] && b == b[..n] + [b[n]];
    }
  }

  lemma WithoutLast(a: seq<string>)
    requires Ascending(a) && a != []
    ensures Ascending(a[..|a| - 1])
    ensures forall s :: s in a[..|a| - 1] <==> s in a && s != a[|a| - 1]
  {
    assert a == a[..|a| - 1] + [a[|a| - 1]];
  }

  lemma SortedLast(a: seq<string>, s: string)
    requires Ascending(a) && s in a
    ensures StringLe(s, a[|a| - 1])
  {
    var i :| 0 <= i < |a| && a[i] == s;
    StringLeTotal(s, s);
  }

  // ----- the walk over a bucket -----

  /** The surface forms of a bucket that start with the prefix, each once, in bucket order. */
  function Distinct(bucket: seq<Surface>, prefix: string): seq<string> {
    if bucket == [] then []
    else
      var n := |bucket| - 1;
      var before := Distinct(bucket[..n], prefix);
      if StartsWith(bucket[n].text, prefix) && bucket[n].text !in before then before + [bucket[n].text] else before
  }

  lemma {:induction false} DistinctHolds(bucket: seq<Surface>, prefix: string)
    ensures forall s :: s in Distinct(bucket, prefix) <==> StartsWith(s, prefix) && exists x :: x in bucket && x.text == s
  {
    if bucket != [] {
      var n := |bucket| - 1;
      DistinctHolds(bucket[..n], prefix);
      hide StartsWith;
      var before := Distinct(bucket[..n], prefix);
      forall s
        ensures s in Distinct(bucket, prefix) <==> StartsWith(s, prefix) && exists x :: x in bucket && x.text == s
      {
        assert bucket == bucket[..n] + [bucket[n]];
        if x :| x in bucket && x.text == s {
          assert x in bucket[..n] || x == bucket[n];
        }
      }
    }
  }

  lemma {:induction false} DistinctSorted(bucket: seq<Surface>, prefix: string)
    requires Sorted(bucket, SurfaceLe)
    ensures Ascending(Distinct(bucket, prefix))
  {
    if bucket != [] {
      var n := |bucket| - 1;
      DistinctSorted(bucket[..n], prefix);
      DistinctHolds(bucket[..n], prefix);
      var before := Distinct(bucket[..n], prefix);
      forall i | 0 <= i < |before|
        ensures StringLe(before[i], bucket[n].text)
      {
        assert before[i] in before;
        var x :| x in bucket[..n] && x.text == before[i];
        var k :| 0 <= k < n && bucket[..n][k] == x;
        assert SurfaceLe(bucket[k], bucket[n]);
      }
    }
  }

  lemma {:induction false} DistinctGrows(bucket: seq<Surface>, prefix: string, i: nat)
    requires i <= |bucket|
    ensures |Distinct(bucket[..i], prefix)| <= |Distinct(bucket, prefix)|
    ensures Distinct(bucket, prefix)[..|Distinct(bucket[..i], prefix)|] == Distinct(bucket[..i], prefix)
  {
    if i == |bucket| {
      assert bucket[..i] == bucket;
    } else {
      var n := |bucket| - 1;
      DistinctGrows(bucket[..n], prefix, i);
      assert bucket[..n][..i] == bucket[..i];
    }
  }

  // ----- the bucket of the first character -----

  lemma {:induction false} StartingWithHolds(surfaces: seq<string>, doc: nat, c: char)
    ensures forall x :: x in StartingWith(surfaces, doc, c)
                        <==> x.doc == doc && x.text in surfaces && x.text != [] && x.text[0] == c
  {
    if surfaces != [] {
      StartingWithHolds(surfaces[..|surfaces| - 1], doc, c);
      assert surfaces == surfaces[..|surfaces| - 1] + [surfaces[|surfaces| - 1]];
    }
  }

  lemma {:induction false} BucketHolds(l: Language, corpus: seq<Entry>, c: char)
    ensures forall x :: x in Bucket(l, corpus, c)
                        <==> x.doc < |corpus| && x.text in Surfaces(l, corpus[x.doc]) && x.text != [] && x.text[0] == c
  {
    if corpus != [] {
      var n := |corpus| - 1;
      BucketHolds(l, corpus[..n], c);
      StartingWithHolds(Surfaces(l, corpus[n]), n, c);
      hide Surfaces, StartingWith;
      forall x
        ensures x in Bucket(l, corpus, c)
                <==> x.doc < |corpus| && x.text in Surfaces(l, corpus[x.doc]) && x.text != [] && x.text[0] == c
      {
        if x.doc < n {
          assert corpus[..n][x.doc] == corpus[x.doc];
        }
      }
    }
  }

  lemma SurfaceOrder()
    ensures TotalPreorder(SurfaceLe)
  {
    forall a: Surface, b: Surface
      ensures SurfaceLe(a, b) || SurfaceLe(b, a)
    {
      StringLeTotal(a.text, b.text);
    }
    forall a: Surface, b: Surface, c: Surface | SurfaceLe(a, b) && SurfaceLe(b, c)
      ensures SurfaceLe(a, c)
    {
      StringLeTransitive(a.text, b.text, c.text);
    }
  }

  /** One sorted bucket, thinned out, is the list of all suggestions. */
  lemma BucketSuggests(l: Language, corpus: seq<Entry>, prefix: string)
    requires prefix != []
    ensures AllSuggestions(l, corpus, prefix, Distinct(StableSort(Bucket(l, corpus, prefix[0]), SurfaceLe), prefix))
  {
    hide Surfaces, Bucket, StableSort;
    var raw := Bucket(l, corpus, prefix[0]);
    var bucket := StableSort(raw, SurfaceLe);
    SurfaceOrder();
    SortSorts(raw, SurfaceLe);
    SortElements(raw, SurfaceLe);
    SameElements(bucket, raw);
    DistinctSorted(bucket, prefix);
    DistinctHolds(bucket, prefix);
    AscendingIsSorted(Distinct(bucket, prefix));
    BucketHolds(l, corpus, prefix[0]);
    forall s
      ensures s in Distinct(bucket, prefix) <==> Suggestible(l, corpus, prefix, s)
    {
      if s in Distinct(bucket, prefix) {
        var x :| x in bucket && x.text == s;
        SurfacesAreNames(l, corpus[x.doc], s);
        assert corpus[x.doc] in corpus;
      }
      if Suggestible(l, corpus, prefix, s) {
        var e, a :| e in corpus && (a == e.name || a in e.aliases) && s == l.normalize(a);
        SurfacesAreNames(l, e, s);
        var d: nat :| d < |corpus| && corpus[d] == e;
        assert s[..|prefix|][0] == prefix[0];
        assert Surface(s, d) in raw;
      }
    }
  }

  function SuggestionLimit(limit: nat): nat {
    if limit < 1 then 1 else limit
  }

  /**
    The suggestions are the first `limit` (at least one) of the sorted list without duplicates of all surface forms
    that start with the normalised prefix; an empty prefix has none.
   */
  method Suggest(l: Language, e: Engine, prefix: string, limit: nat, ghost corpus: seq<Entry>)
    returns (out: seq<string>, ghost all: seq<string>)
    requires IndexOf(l, e, corpus)
    ensures l.normalize(prefix) == [] ==> out == []
    ensures l.normalize(prefix) != [] ==>
      AllSuggestions(l, corpus, l.normalize(prefix), all)
      && out <= all && |out| == (if limit == 0 then if all == [] then 0 else 1 else if limit < |all| then limit else |all|)
  {
    hide StableSort, Bucket, AllSuggestions, IndexOf;
    out, all := [], [];
    var p := l.normalize(prefix);
    if p == [] {
      return;
    }
    PrefixLookup(l, e, corpus, p[0]);
    BucketSuggests(l, corpus, p);
    var bucket := Lookup(e.prefix, p[0]);
    all := Distinct(bucket, p);
    if p[0] !in e.prefix {
      return;
    }
    var i := 0;
    while i < |bucket| && |out| < SuggestionLimit(limit)
      invariant i <= |bucket| && out == Distinct(bucket[..i], p) && |out| <= SuggestionLimit(limit)
    {
      assert bucket[..i + 1][..i] == bucket[..i];
      if StartsWith(bucket[i].text, p) && bucket[i].text !in out {
        out := out + [bucket[i].text];
      }
      i := i + 1;
    }
    DistinctGrows(bucket, p, i);
    assert i == |bucket| ==> bucket[..i] == bucket;
  }

  lemma PrefixLookup(l: Language, e: Engine, corpus: seq<Entry>, c: char)
    requires IndexOf(l, e, corpus)
    ensures Lookup(e.prefix, c) == StableSort(Bucket(l, corpus, c), SurfaceLe)
  {
    hide StableSort, Bucket;
  }
}

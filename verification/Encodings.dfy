/** Encodings of the stored values as text that meets the hypothesis of the file backend: it can be met. */
module Encodings {
  import opened Wrappers
  import opened Corpus
  import opened LineProtocol
  import opened Storage
  import opened JsonLines
  import opened Backends

  const ZERO: byte := 48
  const ONE: byte := 49

  /** Every value has a text of zeros and ones, and the text tells the value and where it ends. */
  ghost predicate Delimits<T(!new)>(enc: T -> seq<byte>) {
    && (forall v :: enc(v) != [] && forall i :: 0 <= i < |enc(v)| ==> enc(v)[i] == ZERO || enc(v)[i] == ONE)
    && (forall a, b, x, y :: enc(a) + x == enc(b) + y ==> a == b && x == y)
  }

  // ----- numbers, lists, pairs, and what maps to them -----

  function Unary(n: nat): seq<byte> {
    if n == 0 then [ZERO] else [ONE] + Unary(n - 1)
  }

  function ListOf<T>(enc: T -> seq<byte>, s: seq<T>): seq<byte> {
    if s == [] then [ZERO] else [ONE] + enc(s[0]) + ListOf(enc, s[1..])
  }

  function List<T>(enc: T -> seq<byte>): seq<T> -> seq<byte> {
    s => ListOf(enc, s)
  }

  function Pair<S, T>(first: S -> seq<byte>, second: T -> seq<byte>): ((S, T)) -> seq<byte> {
    (p: (S, T)) => first(p.0) + second(p.1)
  }

  function Via<S, T>(view: S -> T, enc: T -> seq<byte>): S -> seq<byte> {
    v => enc(view(v))
  }

  ghost predicate Injective<S(!new), T>(view: S -> T) {
    forall a, b :: view(a) == view(b) ==> a == b
  }

  lemma SameFirst(a: byte, x: seq<byte>, b: byte, y: seq<byte>)
    requires [a] + x == [b] + y
    ensures a == b && x == y
  {
    assert ([a] + x)[0] == a && ([b] + y)[0] == b;
    assert ([a] + x)[1..] == x && ([b] + y)[1..] == y;
  }

  lemma {:induction false} UnaryEnds(a: nat, b: nat, x: seq<byte>, y: seq<byte>)
    requires Unary(a) + x == Unary(b) + y
    ensures a == b && x == y
  {
    var s := if a == 0 then x else Unary(a - 1) + x;
    var t := if b == 0 then y else Unary(b - 1) + y;
    assert Unary(a) + x == [if a == 0 then ZERO else ONE] + s;
    assert Unary(b) + y == [if b == 0 then ZERO else ONE] + t;
    SameFirst(if a == 0 then ZERO else ONE, s, if b == 0 then ZERO else ONE, t);
    if a > 0 {
      UnaryEnds(a - 1, b - 1, x, y);
    }
  }

  lemma {:induction false} UnaryBits(n: nat)
    ensures Unary(n) != [] && forall i :: 0 <= i < |Unary(n)| ==> Unary(n)[i] == ZERO || Unary(n)[i] == ONE
  {
    if n > 0 {
      UnaryBits(n - 1);
    }
  }

  lemma NumbersDelimited()
    ensures Delimits(Unary)
  {
    forall n: nat
      ensures Unary(n) != [] && forall i :: 0 <= i < |Unary(n)| ==> Unary(n)[i] == ZERO || Unary(n)[i] == ONE
    {
      UnaryBits(n);
    }
    forall a: nat, b: nat, x, y | Unary(a) + x == Unary(b) + y
      ensures a == b && x == y
    {
      UnaryEnds(a, b, x, y);
    }
  }

  lemma {:induction false} ListBits<T(!new)>(enc: T -> seq<byte>, s: seq<T>)
    requires Delimits(enc)
    ensures ListOf(enc, s) != []
    ensures forall i :: 0 <= i < |ListOf(enc, s)| ==> ListOf(enc, s)[i] == ZERO || ListOf(enc, s)[i] == ONE
  {
    if s != [] {
      ListBits(enc, s[1..]);
    }
  }

  lemma {:induction false} ListEnds<T(!new)>(enc: T -> seq<byte>, a: seq<T>, b: seq<T>, x: seq<byte>, y: seq<byte>)
    requires Delimits(enc) && ListOf(enc, a) + x == ListOf(enc, b) + y
    ensures a == b && x == y
  {
    var s := if a == [] then x else enc(a[0]) + (ListOf(enc, a[1..]) + x);
    var t := if b == [] then y else enc(b[0]) + (ListOf(enc, b[1..]) + y);
    assert ListOf(enc, a) + x == [if a == [] then ZERO else ONE] + s;
    assert ListOf(enc, b) + y == [if b == [] then ZERO else ONE] + t;
    SameFirst(if a == [] then ZERO else ONE, s, if b == [] then ZERO else ONE, t);
    if a != [] {
      ListEnds(enc, a[1..], b[1..], x, y);
      assert a == [a[0]] + a[1..] && b == [b[0]] + b[1..];
    }
  }

  lemma ListsDelimited<T(!new)>(enc: T -> seq<byte>)
    requires Delimits(enc)
    ensures Delimits(List(enc))
  {
    var list := List(enc);
    forall v
      ensures list(v) != [] && forall i :: 0 <= i < |list(v)| ==> list(v)[i] == ZERO || list(v)[i] == ONE
    {
      ListBits(enc, v);
    }
    forall a, b, x, y | list(a) + x == list(b) + y
      ensures a == b && x == y
    {
      ListEnds(enc, a, b, x, y);
    }
  }

  lemma PairsDelimited<S(!new), T(!new)>(first: S -> seq<byte>, second: T -> seq<byte>)
    requires Delimits(first) && Delimits(second)
    ensures Delimits(Pair(first, second))
  {
    var pair := Pair(first, second);
    forall v
      ensures pair(v) != [] && forall i :: 0 <= i < |pair(v)| ==> pair(v)[i] == ZERO || pair(v)[i] == ONE
    {
      assert pair(v) == first(v.0) + second(v.1);
    }
    forall a, b, x, y | pair(a) + x == pair(b) + y
      ensures a == b && x == y
    {
      Regroup(first(a.0), second(a.1), x);
      Regroup(first(b.0), second(b.1), y);
      assert first(a.0) + (second(a.1) + x) == first(b.0) + (second(b.1) + y);
      assert second(a.1) + x == second(b.1) + y;
    }
  }

  lemma ViewsDelimited<S(!new), T(!new)>(view: S -> T, enc: T -> seq<byte>)
    requires Delimits(enc) && Injective(view)
    ensures Delimits(Via(view, enc))
  {
  }

  // ----- the stored values -----

  function Text(): string -> seq<byte> {
    List(Via((c: char) => c as nat, Unary))
  }

  lemma TextDelimited()
    ensures Delimits(Text()) && Delimits(List(Text()))
  {
    NumbersDelimited();
    ViewsDelimited((c: char) => c as nat, Unary);
    ListsDelimited(Via((c: char) => c as nat, Unary));
    ListsDelimited(Text());
  }

  function IntegerView(i: int): nat {
    if i >= 0 then 2 * i else -2 * i - 1
  }

  function EntityTypeView(t: EntityType): nat {
    match t
    case Individual => 0
    case Entity => 1
    case Vessel => 2
    case Aircraft => 3
    case Unknown => 4
  }

  function OptionView(o: Option<string>): seq<string> {
    match o
    case None => []
    case Some(s) => [s]
  }

  function EntryEncoding(): Entry -> seq<byte> {
    Via((e: Entry) => ((([e.id, e.sourceList, e.name], e.aliases), (EntityTypeView(e.entityType), e.addresses)),
                       (e.nationalities, e.programs)),
        Pair(Pair(Pair(List(Text()), List(Text())), Pair(Unary, List(Text()))), Pair(List(Text()), List(Text()))))
  }

  function SnapshotEncoding(): Snapshot -> seq<byte> {
    Via((s: Snapshot) => ((s.fetchedAt, s.version), s.entries), Pair(Pair(Unary, Text()), List(EntryEncoding())))
  }

  function HitEncoding(): HitSnapshot -> seq<byte> {
    Via((h: HitSnapshot) => (IntegerView(h.score), ([h.entryId, h.tlp, h.snippet], h.matchedFields)),
        Pair(Unary, Pair(List(Text()), List(Text()))))
  }

  function EventEncoding(): SearchEvent -> seq<byte> {
    Via((e: SearchEvent) => ((e.when, [e.auditId, e.who, e.query, e.tlp, e.decision, e.source]), (e.topHitIds, e.topHits)),
        Pair(Pair(Unary, List(Text())), Pair(List(Text()), List(HitEncoding()))))
  }

  function WorkflowEncoding(): WorkflowEntry -> seq<byte> {
    Via((w: WorkflowEntry) => (w.decidedAt, ([w.auditId, w.decision, w.decidedBy], OptionView(w.note))),
        Pair(Unary, Pair(List(Text()), List(Text()))))
  }

  lemma SnapshotsDelimited()
    ensures Delimits(SnapshotEncoding())
  {
    NumbersDelimited();
    TextDelimited();
    var texts := List(Text());
    hide Delimits;
    PairsDelimited(texts, texts);
    PairsDelimited(Unary, texts);
    PairsDelimited(Pair(texts, texts), Pair(Unary, texts));
    PairsDelimited(Pair(Pair(texts, texts), Pair(Unary, texts)), Pair(texts, texts));
    ViewsDelimited((e: Entry) => ((([e.id, e.sourceList, e.name], e.aliases), (EntityTypeView(e.entityType), e.addresses)),
                                  (e.nationalities, e.programs)),
                   Pair(Pair(Pair(texts, texts), Pair(Unary, texts)), Pair(texts, texts)));
    ListsDelimited(EntryEncoding());
    PairsDelimited(Unary, Text());
    PairsDelimited(Pair(Unary, Text()), List(EntryEncoding()));
    ViewsDelimited((s: Snapshot) => ((s.fetchedAt, s.version), s.entries),
                   Pair(Pair(Unary, Text()), List(EntryEncoding())));
  }

  lemma EventsDelimited()
    ensures Delimits(EventEncoding()) && Delimits(WorkflowEncoding())
  {
    NumbersDelimited();
    TextDelimited();
    var texts := List(Text());
    hide Delimits;
    PairsDelimited(texts, texts);
    PairsDelimited(Unary, Pair(texts, texts));
    ViewsDelimited((h: HitSnapshot) => (IntegerView(h.score), ([h.entryId, h.tlp, h.snippet], h.matchedFields)),
                   Pair(Unary, Pair(texts, texts)));
    ListsDelimited(HitEncoding());
    PairsDelimited(Unary, texts);
    PairsDelimited(texts, List(HitEncoding()));
    PairsDelimited(Pair(Unary, texts), Pair(texts, List(HitEncoding())));
    ViewsDelimited((e: SearchEvent) =>
                     ((e.when, [e.auditId, e.who, e.query, e.tlp, e.decision, e.source]), (e.topHitIds, e.topHits)),
                   Pair(Pair(Unary, texts), Pair(texts, List(HitEncoding()))));
    ViewsDelimited((w: WorkflowEntry) => (w.decidedAt, ([w.auditId, w.decision, w.decidedBy], OptionView(w.note))),
                   Pair(Unary, Pair(texts, texts)));
  }

  // ----- the codecs -----

  ghost function Decoded<T(!new)>(enc: T -> seq<byte>, line: seq<byte>): Option<T> {
    if exists v :: enc(v) == line then
      var v :| enc(v) == line; Some(v)
    else None
  }

  ghost function CodecOf<T(!new)>(enc: T -> seq<byte>): Codec<T> {
    Codec(enc, line => Decoded(enc, line))
  }

  lemma DelimitedIsFaithful<T(!new)>(enc: T -> seq<byte>)
    requires Delimits(enc)
    ensures Faithful(CodecOf(enc))
  {
    var c := CodecOf(enc);
    forall v
      ensures c.decode(c.encode(v)) == Some(v)
      ensures NEWLINE !in c.encode(v) && CARRIAGE_RETURN !in c.encode(v) && !IsBlank(c.encode(v))
    {
      assert c.decode(c.encode(v)) == Decoded(enc, enc(v));
      var w := Decoded(enc, enc(v)).value;
      assert enc(w) + [] == enc(v) + [];
      assert !IsSpace(enc(v)[0]);
    }
  }

  /** The same text over two lines. */
  function Broken<T>(enc: T -> seq<byte>): T -> seq<byte> {
    v => [NEWLINE] + enc(v)
  }

  lemma BrokenRoundTrips<T(!new)>(enc: T -> seq<byte>)
    requires Delimits(enc)
    ensures RoundTrips(CodecOf(Broken(enc)))
  {
    var c := CodecOf(Broken(enc));
    forall v
      ensures c.decode(c.encode(v)) == Some(v)
    {
      assert c.decode(c.encode(v)) == Decoded(Broken(enc), Broken(enc)(v));
      var w := Decoded(Broken(enc), Broken(enc)(v)).value;
      SameFirst(NEWLINE, enc(w), NEWLINE, enc(v));
      assert enc(w) + [] == enc(v) + [];
    }
  }

  /** There are codecs that meet the hypothesis of the file backend, also with a snapshot printed over many lines. */
  lemma FaithfulCodecsExist() returns (codecs: Codecs)
    ensures AllFaithful(codecs)
    ensures forall s :: NEWLINE in codecs.snapshot.encode(s)
  {
    hide Delimits, Faithful, RoundTrips;
    SnapshotsDelimited();
    EventsDelimited();
    BrokenRoundTrips(SnapshotEncoding());
    DelimitedIsFaithful(EventEncoding());
    DelimitedIsFaithful(WorkflowEncoding());
    codecs := Codecs(CodecOf(Broken(SnapshotEncoding())), CodecOf(EventEncoding()), CodecOf(WorkflowEncoding()));
    forall s
      ensures NEWLINE in codecs.snapshot.encode(s)
    {
      assert codecs.snapshot.encode(s)[0] == NEWLINE;
    }
  }
}

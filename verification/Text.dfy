/** Tokens, trigrams and the string order of the index, over an abstract normalisation. */
module Text {

  /**
    The library functions that the engine calls: compatibility normalisation with accent folding and lower-casing,
    the Jaro-Winkler similarity, and the natural logarithm.
   */
  datatype Language = Language(
    normalize: string -> string,
    similarity: (string, string) -> real,
    ln: real -> real
  )

  ghost predicate Lawful(l: Language) {
    && (forall s :: l.normalize(l.normalize(s)) == l.normalize(s))
    && (forall a, b :: 0.0 <= l.similarity(a, b) <= 1.0)
    && l.ln(1.0) == 0.0
    && (forall x, y :: 0.0 < x <= y ==> l.ln(x) <= l.ln(y))
  }

  predicate IsAlphanumeric(c: char) {
    '0' <= c <= '9' || 'A' <= c <= 'Z' || 'a' <= c <= 'z'
  }

  /** The pieces between the characters that are not alphanumeric, empty pieces included. */
  function Split(s: string): (pieces: seq<string>)
    ensures |pieces| >= 1
  {
    if s == [] then [[]]
    else
      var rest := Split(s[1..]);
      if IsAlphanumeric(s[0]) then [[s[0]] + rest[0]] + rest[1..] else [[]] + rest
  }

  function NonEmpty(pieces: seq<string>): seq<string> {
    if pieces == [] then []
    else (if pieces[0] == [] then [] else [pieces[0]]) + NonEmpty(pieces[1..])
  }

  function Tokenize(l: Language, input: string): seq<string> {
    NonEmpty(Split(l.normalize(input)))
  }

  /** Every character that is not alphanumeric becomes an underscore. */
  function Collapse(s: string): (r: string)
    ensures |r| == |s|
  {
    seq(|s|, i requires 0 <= i < |s| => if IsAlphanumeric(s[i]) then s[i] else '_')
  }

  function Windows(s: string): seq<string>
    requires |s| >= 3
  {
    seq(|s| - 2, i requires 0 <= i < |s| - 2 => s[i..i + 3])
  }

  function Trigrams(l: Language, input: string): seq<string> {
    var collapsed := Collapse(l.normalize(input));
    if collapsed == [] then [] else
    var padded := "^" + collapsed + "$";
    if |padded| < 3 then [] else Windows(padded)
  }

  /** A text that is not empty once normalised has trigrams, whatever its characters are. */
  lemma HasTrigrams(l: Language, input: string)
    ensures Trigrams(l, input) != [] <==> l.normalize(input) != []
  {
  }

  /** Trigrams and tokens depend only on the normalised text, so a surface form may be normalised again. */
  lemma NormalizedTwice(l: Language, input: string)
    requires Lawful(l)
    ensures Trigrams(l, l.normalize(input)) == Trigrams(l, input)
    ensures Tokenize(l, l.normalize(input)) == Tokenize(l, input)
  {
  }

  // ----- what trigrams are -----

  /** By their codes: the digits, the capital and the small letters of ASCII. */
  predicate LetterOrDigit(c: char) {
    var code := c as int;
    48 <= code <= 57 || 65 <= code <= 90 || 97 <= code <= 122
  }

  lemma AlphanumericIsLetterOrDigit(c: char)
    ensures IsAlphanumeric(c) <==> LetterOrDigit(c)
  {
  }

  /** The normalised text between `^` and `$`, with an underscore for every character that is no letter or digit. */
  ghost predicate Padded(l: Language, input: string, text: string) {
    var n := l.normalize(input);
    && |text| == |n| + 2 && text[0] == '^' && text[|n| + 1] == '$'
    && forall i :: 0 <= i < |n| ==> text[i + 1] == if LetterOrDigit(n[i]) then n[i] else '_'
  }

  lemma PiecesAreWindows(text: string, g: string)
    requires |text| >= 3
    ensures g in Windows(text) <==> |g| == 3 && exists x, y :: x + g + y == text
  {
    if g in Windows(text) {
      var k :| 0 <= k < |text| - 2 && Windows(text)[k] == g;
      assert text[..k] + g + text[k + 3..] == text;
    }
    if x, y :| |g| == 3 && x + g + y == text {
      assert text[|x|..|x| + 3] == g;
      assert Windows(text)[|x|] == g;
    }
  }

  /** The trigrams are all the pieces of three characters of the padded text, one from every position. */
  lemma TrigramsArePieces(l: Language, input: string) returns (text: string)
    requires l.normalize(input) != []
    ensures Padded(l, input, text)
    ensures |Trigrams(l, input)| == |l.normalize(input)|
    ensures forall k :: 0 <= k < |Trigrams(l, input)| ==> Trigrams(l, input)[k] == text[k..k + 3]
    ensures forall g :: g in Trigrams(l, input) <==> |g| == 3 && exists x, y :: x + g + y == text
  {
    var n := l.normalize(input);
    text := "^" + Collapse(n) + "$";
    forall g
      ensures g in Windows(text) <==> |g| == 3 && exists x, y :: x + g + y == text
    {
      PiecesAreWindows(text, g);
    }
  }

  // ----- what tokens are -----

  function Spelled(pieces: seq<string>): string {
    if pieces == [] then [] else pieces[0] + Spelled(pieces[1..])
  }

  function AlphanumericPart(s: string): string {
    if s == [] then []
    else (if IsAlphanumeric(s[0]) then [s[0]] else []) + AlphanumericPart(s[1..])
  }

  lemma {:induction false} SplitSpells(s: string)
    ensures Spelled(Split(s)) == AlphanumericPart(s)
    ensures forall p, i :: p in Split(s) && 0 <= i < |p| ==> IsAlphanumeric(p[i])
  {
    if s != [] {
      SplitSpells(s[1..]);
      var rest := Split(s[1..]);
      if IsAlphanumeric(s[0]) {
        var first := [s[0]] + rest[0];
        assert ([first] + rest[1..])[1..] == rest[1..];
        assert Spelled(rest) == rest[0] + Spelled(rest[1..]);
        assert Spelled([first] + rest[1..]) == [s[0]] + rest[0] + Spelled(rest[1..]);
      } else {
        assert ([[]] + rest)[1..] == rest;
        assert Spelled(Split(s)) == [] + Spelled(rest);
      }
    }
  }

  lemma {:induction false} NonEmptySpells(pieces: seq<string>)
    ensures Spelled(NonEmpty(pieces)) == Spelled(pieces)
    ensures forall p :: p in NonEmpty(pieces) <==> p in pieces && p != []
  {
    if pieces != [] {
      NonEmptySpells(pieces[1..]);
      assert pieces == [pieces[0]] + pieces[1..];
      if pieces[0] == [] {
        assert NonEmpty(pieces) == NonEmpty(pieces[1..]);
      } else {
        assert NonEmpty(pieces)[1..] == NonEmpty(pieces[1..]);
      }
    }
  }

  /** The tokens spell out exactly the alphanumeric characters of the normalised text, in order. */
  lemma TokensSpell(l: Language, input: string)
    ensures Spelled(Tokenize(l, input)) == AlphanumericPart(l.normalize(input))
    ensures forall t :: t in Tokenize(l, input) ==> t != [] && forall i :: 0 <= i < |t| ==> IsAlphanumeric(t[i])
  {
    SplitSpells(l.normalize(input));
    NonEmptySpells(Split(l.normalize(input)));
  }

  function Interleave(gaps: seq<string>, tokens: seq<string>): string
    requires |gaps| == |tokens| + 1
  {
    if tokens == [] then gaps[0] else gaps[0] + tokens[0] + Interleave(gaps[1..], tokens[1..])
  }

  /** Between two tokens stands at least one character, and none of those is alphanumeric. */
  ghost predicate Separates(gaps: seq<string>) {
    && (forall i, j :: 0 <= i < |gaps| && 0 <= j < |gaps[i]| ==> !IsAlphanumeric(gaps[i][j]))
    && (forall i :: 0 < i < |gaps| - 1 ==> gaps[i] != [])
  }

  predicate StartsToken(s: string) {
    s != [] && IsAlphanumeric(s[0])
  }

  lemma FirstToken(gap: string, token: string, gaps: seq<string>, tokens: seq<string>)
    requires |gaps| == |tokens| + 1
    ensures Interleave([gap] + gaps, [token] + tokens) == gap + token + Interleave(gaps, tokens)
  {
    assert ([gap] + gaps)[1..] == gaps && ([token] + tokens)[1..] == tokens;
  }

  lemma WiderGap(gaps: seq<string>, tokens: seq<string>, c: char)
    requires |gaps| == |tokens| + 1 && Separates(gaps) && !IsAlphanumeric(c)
    ensures Interleave([[c] + gaps[0]] + gaps[1..], tokens) == [c] + Interleave(gaps, tokens)
    ensures Separates([[c] + gaps[0]] + gaps[1..])
  {
    assert gaps == [gaps[0]] + gaps[1..];
    if tokens != [] {
      assert tokens == [tokens[0]] + tokens[1..];
      FirstToken(gaps[0], tokens[0], gaps[1..], tokens[1..]);
      FirstToken([c] + gaps[0], tokens[0], gaps[1..], tokens[1..]);
      hide Interleave;
      Regroup([c], gaps[0], tokens[0], Interleave(gaps[1..], tokens[1..]));
    }
  }

  lemma Regroup(a: string, b: string, c: string, d: string)
    ensures a + b + c + d == a + (b + c + d)
    ensures [] + (a + b) + c == a + ([] + b + c)
  {
  }

  lemma LongerToken(gaps: seq<string>, tokens: seq<string>, c: char)
    requires |gaps| == |tokens| + 1 && tokens != [] && gaps[0] == []
    ensures Interleave(gaps, [[c] + tokens[0]] + tokens[1..]) == [c] + Interleave(gaps, tokens)
  {
    assert gaps == [gaps[0]] + gaps[1..] && tokens == [tokens[0]] + tokens[1..];
    FirstToken([], tokens[0], gaps[1..], tokens[1..]);
    FirstToken([], [c] + tokens[0], gaps[1..], tokens[1..]);
    hide Interleave;
    Regroup([c], tokens[0], Interleave(gaps[1..], tokens[1..]), []);
  }

  lemma NewToken(gaps: seq<string>, tokens: seq<string>, c: char)
    requires |gaps| == |tokens| + 1 && Separates(gaps) && (tokens != [] ==> gaps[0] != [])
    ensures Interleave([[]] + gaps, [[c]] + tokens) == [c] + Interleave(gaps, tokens)
    ensures Separates([[]] + gaps)
  {
    FirstToken([], [c], gaps, tokens);
  }

  lemma TokensInFront(first: string, rest: seq<string>)
    ensures NonEmpty([first] + rest) == if first == [] then NonEmpty(rest) else [first] + NonEmpty(rest)
  {
    assert ([first] + rest)[1..] == rest;
  }

  lemma {:induction false} SplitAtGaps(s: string) returns (gaps: seq<string>)
    ensures |gaps| == |NonEmpty(Split(s))| + 1 && Interleave(gaps, NonEmpty(Split(s))) == s && Separates(gaps)
    ensures gaps[0] == [] <==> s == [] || StartsToken(s)
    ensures Split(s)[0] != [] <==> StartsToken(s)
  {
    if s == [] {
      gaps := [[]];
      assert NonEmpty(Split(s)) == [];
    } else {
      var rest := Split(s[1..]);
      var tokens := NonEmpty(rest);
      gaps := SplitAtGaps(s[1..]);
      assert s == [s[0]] + s[1..] && rest == [rest[0]] + rest[1..];
      TokensInFront(rest[0], rest[1..]);
      TokensInFront([], rest);
      TokensInFront([s[0]] + rest[0], rest[1..]);
      assert s[1..] == [] ==> tokens == [];
      assert Split(s) == if IsAlphanumeric(s[0]) then [[s[0]] + rest[0]] + rest[1..] else [[]] + rest;
      hide NonEmpty, Interleave, Split, Separates;
      if !IsAlphanumeric(s[0]) {
        WiderGap(gaps, tokens, s[0]);
        gaps := [[s[0]] + gaps[0]] + gaps[1..];
      } else if rest[0] == [] {
        assert [s[0]] + rest[0] == [s[0]];
        NewToken(gaps, tokens, s[0]);
        gaps := [[]] + gaps;
      } else {
        assert tokens == [rest[0]] + NonEmpty(rest[1..]);
        assert tokens[1..] == NonEmpty(rest[1..]);
        LongerToken(gaps, tokens, s[0]);
      }
    }
  }

  /**
    The tokens are the maximal alphanumeric runs of the normalised text: with something between every two of them
    that is not alphanumeric, they make up the text.
   */
  lemma TokensAreRuns(l: Language, input: string) returns (gaps: seq<string>)
    ensures |gaps| == |Tokenize(l, input)| + 1 && Separates(gaps)
    ensures Interleave(gaps, Tokenize(l, input)) == l.normalize(input)
    ensures forall t :: t in Tokenize(l, input) ==> t != [] && forall i :: 0 <= i < |t| ==> IsAlphanumeric(t[i])
  {
    TokensSpell(l, input);
    gaps := SplitAtGaps(l.normalize(input));
  }

  // ----- the order of strings -----

  predicate StringLe(a: string, b: string) {
    a == [] || (b != [] && (a[0] < b[0] || (a[0] == b[0] && StringLe(a[1..], b[1..]))))
  }

  /** The order of a dictionary, without equality. */
  ghost predicate Precedes(a: string, b: string) {
    a != b && (a <= b || exists i: nat :: i < |a| && i < |b| && a[..i] == b[..i] && a[i] < b[i])
  }

  /** The recursive order is that of the first difference, and a prefix comes first. */
  lemma {:induction false} StringLeIsDictionary(a: string, b: string)
    ensures StringLe(a, b) <==> a == b || Precedes(a, b)
  {
    if a != [] && b != [] && a[0] == b[0] {
      StringLeIsDictionary(a[1..], b[1..]);
      TailPrecedes(a, b);
    } else if a != [] && b != [] && a[0] < b[0] {
      assert a[..0] == b[..0];
    } else if a != [] && b != [] {
      assert forall i: nat :: 0 < i < |a| && i < |b| ==> a[..i][0] != b[..i][0];
    }
  }

  lemma TailPrecedes(a: string, b: string)
    requires a != [] && b != [] && a[0] == b[0]
    ensures Precedes(a, b) <==> Precedes(a[1..], b[1..])
    ensures a == b <==> a[1..] == b[1..]
  {
    var x, y := a[1..], b[1..];
    assert a == [a[0]] + x && b == [b[0]] + y;
    assert a <= b <==> x <= y;
    if i: nat :| i < |a| && i < |b| && a[..i] == b[..i] && a[i] < b[i] {
      DropFirst(a, b, i);
      assert x[i - 1] < y[i - 1];
    }
    if i: nat :| i < |x| && i < |y| && x[..i] == y[..i] && x[i] < y[i] {
      PutFirst(a, b, i);
      assert a[i + 1] < b[i + 1];
    }
  }

  lemma DropFirst(a: string, b: string, i: nat)
    requires 0 < i < |a| && i < |b| && a[..i] == b[..i]
    ensures a[1..][..i - 1] == b[1..][..i - 1]
  {
    assert a[1..][..i - 1] == a[..i][1..] && b[1..][..i - 1] == b[..i][1..];
  }

  lemma PutFirst(a: string, b: string, i: nat)
    requires i < |a| - 1 && i < |b| - 1 && a[0] == b[0] && a[1..][..i] == b[1..][..i]
    ensures a[..i + 1] == b[..i + 1]
  {
    assert a[..i + 1] == [a[0]] + a[1..][..i] && b[..i + 1] == [b[0]] + b[1..][..i];
  }

  lemma {:induction false} StringLeTotal(a: string, b: string)
    ensures StringLe(a, b) || StringLe(b, a)
    ensures StringLe(a, b) && StringLe(b, a) ==> a == b
  {
    if a != [] && b != [] && a[0] == b[0] {
      StringLeTotal(a[1..], b[1..]);
      assert a == [a[0]] + a[1..] && b == [b[0]] + b[1..];
    }
  }

  lemma {:induction false} StringLeTransitive(a: string, b: string, c: string)
    requires StringLe(a, b) && StringLe(b, c)
    ensures StringLe(a, c)
  {
    if a != [] && a[0] == b[0] == c[0] {
      StringLeTransitive(a[1..], b[1..], c[1..]);
    }
  }
}

/** Append-only text logs: one encoded value per line. */
module JsonLines {
  import opened Wrappers
  import opened LineProtocol
  import opened Storage

  const CARRIAGE_RETURN: byte := 13

  /** Encoding and decoding of one value; serialisation itself is a library matter. */
  datatype Codec<!T> = Codec(encode: T -> seq<byte>, decode: seq<byte> -> Option<T>)

  predicate IsSpace(c: byte) {
    9 <= c <= 13 || c == 32
  }

  predicate IsBlank(line: seq<byte>) {
    forall i :: 0 <= i < |line| ==> IsSpace(line[i])
  }

  /** Values come back from their encoding. */
  ghost predicate RoundTrips<T(!new)>(c: Codec<T>) {
    forall v :: c.decode(c.encode(v)) == Some(v)
  }

  /** And, as one line of a log, the encoding has no line break in it and is not blank. */
  ghost predicate Faithful<T(!new)>(c: Codec<T>) {
    RoundTrips(c) && forall v :: NEWLINE !in c.encode(v) && CARRIAGE_RETURN !in c.encode(v) && !IsBlank(c.encode(v))
  }

  function WithoutCarriageReturn(line: seq<byte>): seq<byte> {
    if line != [] && line[|line| - 1] == CARRIAGE_RETURN then line[..|line| - 1] else line
  }

  function TrimAll(lines: seq<seq<byte>>): (r: seq<seq<byte>>)
    ensures |r| == |lines|
  {
    seq(|lines|, i requires 0 <= i < |lines| => WithoutCarriageReturn(lines[i]))
  }

  /** The lines that a buffered reader yields: a last line needs no newline. */
  function FileLines(file: seq<byte>): seq<seq<byte>> {
    TrimAll(Lines(file)) + if Partial(file) == [] then [] else [Partial(file)]
  }

  function DecodeLines<T>(c: Codec<T>, lines: seq<seq<byte>>): Result<seq<T>, StorageError> {
    if lines == [] then Ok([])
    else
      var n := |lines| - 1;
      match DecodeLines(c, lines[..n])
      case Err(e) => Err(e)
      case Ok(values) =>
        if IsBlank(lines[n]) then Ok(values)
        else match c.decode(lines[n])
          case None => Err(Serde)
          case Some(v) => Ok(values + [v])
  }

  function FileValues<T>(c: Codec<T>, file: Option<seq<byte>>): Result<seq<T>, StorageError> {
    if file.None? then Ok([]) else DecodeLines(c, FileLines(file.value))
  }

  /** Reads a log: blank lines are skipped, and the first line that does not decode is an error. */
  method ReadLog<T>(c: Codec<T>, file: Option<seq<byte>>) returns (r: Result<seq<T>, StorageError>)
    ensures r == FileValues(c, file)
  {
    if file.None? {
      return Ok([]);
    }
    var lines := FileLines(file.value);
    var out: seq<T> := [];
    DecodesNothing(c);
    hide DecodeLines, IsBlank, FileLines;
    for i := 0 to |lines|
      invariant DecodeLines(c, lines[..i]) == Ok(out)
    {
      DecodesNext(c, lines, i);
      if IsBlank(lines[i]) {
        continue;
      }
      match c.decode(lines[i])
      case None =>
        StaysAnError(c, lines, i + 1);
        return Err(Serde);
      case Some(v) =>
        out := out + [v];
    }
    assert lines[..|lines|] == lines;
    r := Ok(out);
  }

  lemma DecodesNothing<T>(c: Codec<T>)
    ensures DecodeLines(c, []) == Ok([])
  {
  }

  lemma DecodesNext<T>(c: Codec<T>, lines: seq<seq<byte>>, i: nat)
    requires i < |lines| && DecodeLines(c, lines[..i]).Ok?
    ensures DecodeLines(c, lines[..i + 1])
            == if IsBlank(lines[i]) then DecodeLines(c, lines[..i])
               else if c.decode(lines[i]).None? then Err(Serde)
               else Ok(DecodeLines(c, lines[..i]).value + [c.decode(lines[i]).value])
  {
    assert lines[..i + 1][..i] == lines[..i];
  }

  lemma {:induction false} StaysAnError<T>(c: Codec<T>, lines: seq<seq<byte>>, i: nat)
    requires i <= |lines| && DecodeLines(c, lines[..i]).Err?
    ensures DecodeLines(c, lines) == Err(Serde)
  {
    if i == |lines| {
      assert lines[..i] == lines;
      assert DecodeLines(c, lines).error == Serde;
    } else {
      var n := |lines| - 1;
      assert lines[..n][..i] == lines[..i];
      StaysAnError(c, lines[..n], i);
    }
  }

  function Appended<T>(c: Codec<T>, file: Option<seq<byte>>, v: T): seq<byte> {
    (if file.Some? then file.value else []) + c.encode(v) + [NEWLINE]
  }

  /** Every append so far ended its line. */
  predicate WholeLines(file: Option<seq<byte>>) {
    file.Some? ==> Partial(file.value) == []
  }

  lemma {:induction false} LinesAppended(b: seq<byte>, more: seq<byte>)
    requires NEWLINE !in more
    ensures Lines(b + more) == Lines(b) && Partial(b + more) == Partial(b) + more
  {
    hide Lines, Partial;
    if more == [] {
      assert b + more == b;
      assert Partial(b) + more == Partial(b);
    } else {
      var n := |more| - 1;
      LinesAppended(b, more[..n]);
      LinesOneMore(b + more[..n], more[n]);
      assert more == more[..n] + [more[n]];
      assert b + more == b + more[..n] + [more[n]];
      assert Partial(b) + more[..n] + [more[n]] == Partial(b) + more;
    }
  }

  /** Appending a value to a log appends it to what the log reads as. */
  lemma AppendReadsBack<T(!new)>(c: Codec<T>, file: Option<seq<byte>>, v: T, values: seq<T>)
    requires Faithful(c) && WholeLines(file) && FileValues(c, file) == Ok(values)
    ensures FileValues(c, Some(Appended(c, file, v))) == Ok(values + [v])
    ensures WholeLines(Some(Appended(c, file, v)))
  {
    var before := if file.Some? then file.value else [];
    assert c.decode(c.encode(v)) == Some(v);
    NoLines();
    hide Lines, Partial;
    LineAppended(before, c.encode(v));
    hide FileLines;
    DecodesOneMore(c, FileLines(before), v);
    assert FileLines(before) == [] || file.Some?;
  }

  /** A line break free text and a newline behind whole lines is one more line. */
  lemma LineAppended(before: seq<byte>, line: seq<byte>)
    requires Partial(before) == [] && NEWLINE !in line && CARRIAGE_RETURN !in line
    ensures FileLines(before + line + [NEWLINE]) == FileLines(before) + [line]
    ensures Partial(before + line + [NEWLINE]) == []
  {
    hide Lines, Partial;
    LinesAppended(before, line);
    LinesOneMore(before + line, NEWLINE);
    assert [] + line == line;
    assert line != [] ==> line[|line| - 1] in line;
    assert TrimAll(Lines(before) + [line]) == TrimAll(Lines(before)) + [line];
    assert TrimAll(Lines(before)) + [] == TrimAll(Lines(before));
  }

  lemma DecodesOneMore<T>(c: Codec<T>, lines: seq<seq<byte>>, v: T)
    requires c.decode(c.encode(v)) == Some(v) && !IsBlank(c.encode(v))
    ensures DecodeLines(c, lines).Ok? ==> DecodeLines(c, lines + [c.encode(v)]) == Ok(DecodeLines(c, lines).value + [v])
  {
    assert (lines + [c.encode(v)])[..|lines|] == lines;
  }

  lemma NoLines()
    ensures Lines([]) == [] && Partial([]) == [] && FileLines([]) == []
  {
  }

  // ----- what reading a log means -----

  /** By their codes: tabulator, line breaks and space. */
  ghost predicate OnlyWhite(line: seq<byte>) {
    forall i :: 0 <= i < |line| ==> line[i] as int == 32 || 9 <= line[i] as int <= 13
  }

  /** The lines that hold a value, and the values, in order; one line that does not decode spoils the whole log. */
  lemma {:induction false} LogMeans<T>(c: Codec<T>, lines: seq<seq<byte>>) returns (at: seq<nat>)
    ensures DecodeLines(c, lines).Err? <==> exists i :: 0 <= i < |lines| && !OnlyWhite(lines[i]) && c.decode(lines[i]) == None
    ensures DecodeLines(c, lines).Ok? ==>
      var values := DecodeLines(c, lines).value;
      |at| == |values|
      && (forall k :: 0 <= k < |at| ==> at[k] < |lines| && c.decode(lines[at[k]]) == Some(values[k]))
      && (forall j, k :: 0 <= j < k < |at| ==> at[j] < at[k])
      && (forall i: nat :: i in at <==> i < |lines| && !OnlyWhite(lines[i]))
  {
    hide OnlyWhite, IsBlank;
    at := [];
    if lines != [] {
      var n := |lines| - 1;
      at := LogMeans(c, lines[..n]);
      WhiteIsBlank(lines[n]);
      assert forall i :: 0 <= i < n ==> lines[..n][i] == lines[i];
      if DecodeLines(c, lines[..n]).Ok? && !OnlyWhite(lines[n]) {
        at := at + [n];
      }
    }
  }

  lemma WhiteIsBlank(line: seq<byte>)
    ensures OnlyWhite(line) <==> IsBlank(line)
  {
  }

  ghost predicate EndsInReturn(line: seq<byte>) {
    line != [] && line[|line| - 1] as int == 13
  }

  /** The lines of a file: up to each newline, without a carriage return before it, and the rest if there is one. */
  lemma FileLinesAre(lines: seq<seq<byte>>, rest: seq<byte>)
    requires (forall line :: line in lines ==> NEWLINE !in line) && NEWLINE !in rest
    ensures |FileLines(Framed(lines) + rest)| == |lines| + if rest == [] then 0 else 1
    ensures forall i :: 0 <= i < |lines| ==>
      FileLines(Framed(lines) + rest)[i] == if EndsInReturn(lines[i]) then lines[i][..|lines[i]| - 1] else lines[i]
    ensures rest != [] ==> FileLines(Framed(lines) + rest)[|lines|] == rest
  {
    hide Lines, Partial, Framed;
    LinesOfFramed(lines);
    LinesAppended(Framed(lines), rest);
    assert [] + rest == rest;
  }
}

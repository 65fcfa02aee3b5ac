/** One JSON text per line, over reads that split the bytes anywhere: the serving loop and its client. */
module LineProtocol {
  import opened Wrappers

  newtype byte = x: int | 0 <= x < 256

  const NEWLINE: byte := 10
  const MAX_CHUNK := 4096

  // ----- lines of a byte stream -----

  function FirstNewline(b: seq<byte>): (i: nat)
    requires NEWLINE in b
    ensures i < |b| && b[i] == NEWLINE && NEWLINE !in b[..i]
  {
    if b[0] == NEWLINE then 0
    else
      assert b == [b[0]] + b[1..];
      var i := 1 + FirstNewline(b[1..]);
      assert b[..i] == [b[0]] + b[1..][..i - 1];
      i
  }

  /** The newline-terminated lines, without their newlines. */
  function Lines(b: seq<byte>): seq<seq<byte>> {
    if NEWLINE !in b then []
    else
      var i := FirstNewline(b);
      [b[..i]] + Lines(b[i + 1..])
  }

  /** What follows the last newline. */
  function Partial(b: seq<byte>): seq<byte> {
    if NEWLINE !in b then b else Partial(b[FirstNewline(b) + 1..])
  }

  /** A newline is the byte 10. */
  lemma NewlineIsTen(b: seq<byte>)
    ensures NEWLINE in b <==> exists i :: 0 <= i < |b| && b[i] as int == 10
  {
    if i :| 0 <= i < |b| && b[i] as int == 10 {
      assert b[i] == NEWLINE;
    }
  }

  function Framed(replies: seq<seq<byte>>): seq<byte> {
    if replies == [] then []
    else Framed(replies[..|replies| - 1]) + replies[|replies| - 1] + [NEWLINE]
  }

  lemma NoneBefore(b: seq<byte>, i: nat)
    requires i <= |b| && NEWLINE !in b[..i]
    ensures forall j :: 0 <= j < i ==> b[j] != NEWLINE
  {
    forall j | 0 <= j < i
      ensures b[j] != NEWLINE
    {
      assert b[j] == b[..i][j];
    }
  }

  lemma {:induction false} FirstNewlineAt(b: seq<byte>, i: nat)
    requires i < |b| && b[i] == NEWLINE && NEWLINE !in b[..i]
    ensures NEWLINE in b && FirstNewline(b) == i
  {
    var k := FirstNewline(b);
    NoneBefore(b, i);
    NoneBefore(b, k);
  }

  /** A line in front of the stream is the first line. */
  lemma LineInFront(line: seq<byte>, rest: seq<byte>)
    requires NEWLINE !in line
    ensures Lines(line + [NEWLINE] + rest) == [line] + Lines(rest)
    ensures Partial(line + [NEWLINE] + rest) == Partial(rest)
  {
    var b := line + [NEWLINE] + rest;
    assert b[..|line|] == line && b[|line|] == NEWLINE;
    FirstNewlineAt(b, |line|);
    assert b[|line| + 1..] == rest;
  }

  /** One more byte either completes the line in progress or extends it. */
  lemma {:induction false} LinesOneMore(b: seq<byte>, c: byte)
    ensures Lines(b + [c]) == Lines(b) + if c == NEWLINE then [Partial(b)] else []
    ensures Partial(b + [c]) == if c == NEWLINE then [] else Partial(b) + [c]
    decreases |b|
  {
    if NEWLINE in b {
      var i := FirstNewline(b);
      var line, rest := b[..i], b[i + 1..];
      hide Lines, Partial;
      assert b == line + [NEWLINE] + rest;
      assert b + [c] == line + [NEWLINE] + (rest + [c]);
      LineInFront(line, rest);
      LineInFront(line, rest + [c]);
      LinesOneMore(rest, c);
      Regroup([line], Lines(rest), if c == NEWLINE then [Partial(rest)] else []);
    } else if c == NEWLINE {
      assert b + [c] == b + [NEWLINE] + [];
      LineInFront(b, []);
    } else {
      assert NEWLINE !in b + [c];
    }
  }

  lemma {:induction false} FramedInFront(reply: seq<byte>, replies: seq<seq<byte>>)
    ensures Framed([reply] + replies) == reply + [NEWLINE] + Framed(replies)
  {
    if replies == [] {
      assert [reply] + replies == [reply];
      assert [reply][..0] == [];
    } else {
      var n := |replies| - 1;
      assert ([reply] + replies)[..n + 1] == [reply] + replies[..n];
      FramedInFront(reply, replies[..n]);
    }
  }

  /** Framing and splitting into lines are inverse: nothing is lost, whatever the stream. */
  lemma {:induction false} LinesRebuild(b: seq<byte>)
    ensures Framed(Lines(b)) + Partial(b) == b
    decreases |b|
  {
    if NEWLINE in b {
      var i := FirstNewline(b);
      var line, rest := b[..i], b[i + 1..];
      assert b == line + [NEWLINE] + rest;
      LinesRebuild(rest);
      LineInFront(line, rest);
      FramedInFront(line, Lines(rest));
      hide Framed, Lines, Partial;
      Regroup(line + [NEWLINE], Framed(Lines(rest)), Partial(rest));
    } else {
      assert Framed([]) + b == b;
    }
  }

  lemma Regroup<T>(a: seq<T>, b: seq<T>, c: seq<T>)
    ensures a + b + c == a + (b + c)
  {
  }

  lemma {:induction false} LinesOfFramed(lines: seq<seq<byte>>)
    requires forall line :: line in lines ==> NEWLINE !in line
    ensures Lines(Framed(lines)) == lines && Partial(Framed(lines)) == []
  {
    if lines != [] {
      var line, rest := lines[0], lines[1..];
      LinesOfFramed(rest);
      assert lines == [line] + rest;
      FramedInFront(line, rest);
      LineInFront(line, Framed(rest));
    }
  }

  // ----- the service -----

  datatype Read = Data(bytes: seq<byte>) | ReadFailed

  function Concat(parts: seq<seq<byte>>): seq<byte> {
    if parts == [] then [] else Concat(parts[..|parts| - 1]) + parts[|parts| - 1]
  }

  /** The bytes of a connection: it ends at the first failed or empty read. */
  function Received(input: seq<Read>): seq<byte> {
    if input == [] || input[0].ReadFailed? || input[0].bytes == [] then []
    else input[0].bytes + Received(input[1..])
  }

  /**
    Whatever a line may read or change is one state. The handler answers a line in it; between two lines others may
    change it, the updater in the same thread and the gateways that write the files: `others(k, s)` is what becomes of
    `s` before the k-th line that the service handles.
   */
  datatype Process<!S> = Process(handle: (S, seq<byte>) -> (S, seq<byte>), others: (nat, S) -> S)

  function Turn<S>(p: Process<S>, k: nat, state: S, line: seq<byte>): (S, seq<byte>) {
    p.handle(p.others(k, state), line)
  }

  /** The turns over the lines, in order, from the k-th line on, the state threaded through. */
  function Run<S>(p: Process<S>, k: nat, state: S, lines: seq<seq<byte>>): (S, seq<seq<byte>>) {
    if lines == [] then (state, [])
    else
      var n := |lines| - 1;
      var (before, replies) := Run(p, k, state, lines[..n]);
      var (after, reply) := Turn(p, k + n, before, lines[n]);
      (after, replies + [reply])
  }

  lemma RunOneMore<S>(p: Process<S>, k: nat, state: S, lines: seq<seq<byte>>, line: seq<byte>)
    ensures var (before, replies) := Run(p, k, state, lines);
            var (after, reply) := Turn(p, k + |lines|, before, line);
            Run(p, k, state, lines + [line]) == (after, replies + [reply])
  {
    assert (lines + [line])[..|lines|] == lines;
  }

  lemma FramedOneMore(replies: seq<seq<byte>>, reply: seq<byte>)
    ensures Framed(replies + [reply]) == Framed(replies) + reply + [NEWLINE]
  {
    assert (replies + [reply])[..|replies|] == replies;
  }

  lemma NothingYet<S>(p: Process<S>, k: nat, state: S)
    ensures Partial([]) == [] && Lines([]) == [] && Run(p, k, state, []) == (state, []) && Framed([]) == []
  {
  }

  lemma ReceivedStep(input: seq<Read>, i: nat)
    requires i <= |input|
    ensures Received(input[i..])
            == if i < |input| && input[i].Data? && input[i].bytes != [] then input[i].bytes + Received(input[i + 1..]) else []
  {
    if i < |input| {
      assert input[i..][1..] == input[i + 1..];
    }
  }

  /** The service answers one connection after the other; `handled` counts the lines. */
  class Service<S> {
    var state: S
    var handled: nat
    const process: Process<S>

    constructor (process: Process<S>, state: S)
      ensures this.process == process && this.state == state && handled == 0
    {
      this.process := process;
      this.state := state;
      handled := 0;
    }

    /** The state and the count after the lines of a stream, from those at its start. */
    ghost predicate Reached(k: nat, start: S, stream: seq<byte>)
      reads this
    {
      state == Run(process, k, start, Lines(stream)).0 && handled == k + |Lines(stream)|
    }

    /** Answers the lines completed by one non-empty read; `seen` is what the connection sent before it. */
    method Feed(bytes: seq<byte>, lineBuf: seq<byte>, ghost k: nat, ghost start: S, ghost seen: seq<byte>)
      returns (lineBuf': seq<byte>, written: seq<byte>)
      requires lineBuf == Partial(seen) && Reached(k, start, seen)
      modifies this
      ensures lineBuf' == Partial(seen + bytes) && Reached(k, start, seen + bytes)
      ensures Framed(Run(process, k, start, Lines(seen)).1) + written
              == Framed(Run(process, k, start, Lines(seen + bytes)).1)
    {
      hide Partial, Lines, Run, Framed;
      lineBuf', written := lineBuf, [];
      assert seen + bytes[..0] == seen;
      for i := 0 to |bytes|
        invariant lineBuf' == Partial(seen + bytes[..i]) && Reached(k, start, seen + bytes[..i])
        invariant Framed(Run(process, k, start, Lines(seen)).1) + written
                  == Framed(Run(process, k, start, Lines(seen + bytes[..i])).1)
      {
        ghost var soFar := seen + bytes[..i];
        LinesOneMore(soFar, bytes[i]);
        assert soFar + [bytes[i]] == seen + bytes[..i + 1];
        if bytes[i] == NEWLINE {
          RunOneMore(process, k, start, Lines(soFar), lineBuf');
          state := process.others(handled, state);
          var (after, reply) := process.handle(state, lineBuf');
          FramedOneMore(Run(process, k, start, Lines(soFar)).1, reply);
          state := after;
          handled := handled + 1;
          lineBuf' := [];
          written := written + reply + [NEWLINE];
        } else {
          assert Lines(soFar) + [] == Lines(soFar);
          lineBuf' := lineBuf' + [bytes[i]];
        }
      }
      assert bytes[..|bytes|] == bytes;
    }

    /** One connection: the replies depend on the bytes received, not on how the reads split them. */
    method ServeConnection(input: seq<Read>) returns (written: seq<byte>)
      modifies this
      ensures Reached(old(handled), old(state), Received(input))
      ensures written == Framed(Run(process, old(handled), old(state), Lines(Received(input))).1)
    {
      hide Partial, Lines, Run, Framed, Received;
      var lineBuf: seq<byte> := [];
      ghost var seen: seq<byte> := [];
      written := [];
      NothingYet(process, handled, state);
      var i := 0;
      assert input[0..] == input;
      while i < |input| && input[i].Data? && input[i].bytes != []
        invariant i <= |input| && seen + Received(input[i..]) == Received(input)
        invariant lineBuf == Partial(seen) && Reached(old(handled), old(state), seen)
        invariant written == Framed(Run(process, old(handled), old(state), Lines(seen)).1)
      {
        var answer;
        lineBuf, answer := Feed(input[i].bytes, lineBuf, old(handled), old(state), seen);
        written := written + answer;
        ReceivedStep(input, i);
        seen := seen + input[i].bytes;
        i := i + 1;
      }
      ReceivedStep(input, i);
      assert seen == Received(input);
    }

    /** The accept loop: a line left unfinished by one connection never reaches the next. */
    method Serve(connections: seq<seq<Read>>) returns (written: seq<seq<byte>>)
      modifies this
      ensures |written| == |connections|
      ensures (state, handled) == Served(process, old(handled), old(state), connections)
      ensures forall c :: 0 <= c < |connections| ==>
        var (s, k) := Served(process, old(handled), old(state), connections[..c]);
        written[c] == Framed(Run(process, k, s, Lines(Received(connections[c]))).1)
    {
      hide Lines, Run, Framed, Received, Served;
      NothingServed(process, handled, state);
      written := [];
      for c := 0 to |connections|
        invariant |written| == c && (state, handled) == Served(process, old(handled), old(state), connections[..c])
        invariant forall d :: 0 <= d < c ==>
          var (s, k) := Served(process, old(handled), old(state), connections[..d]);
          written[d] == Framed(Run(process, k, s, Lines(Received(connections[d]))).1)
      {
        var answer := ServeConnection(connections[c]);
        written := written + [answer];
        ServedOneMore(process, old(handled), old(state), connections, c);
      }
      assert connections[..|connections|] == connections;
    }
  }

  /** The state and the number of lines handled after some connections. */
  function Served<S>(p: Process<S>, k: nat, state: S, connections: seq<seq<Read>>): (S, nat) {
    if connections == [] then (state, k)
    else
      var n := |connections| - 1;
      var (s, m) := Served(p, k, state, connections[..n]);
      var lines := Lines(Received(connections[n]));
      (Run(p, m, s, lines).0, m + |lines|)
  }

  lemma NothingServed<S>(p: Process<S>, k: nat, state: S)
    ensures Served(p, k, state, []) == (state, k)
  {
  }

  lemma ServedOneMore<S>(p: Process<S>, k: nat, state: S, connections: seq<seq<Read>>, c: nat)
    requires c < |connections|
    ensures var (s, m) := Served(p, k, state, connections[..c]);
            var lines := Lines(Received(connections[c]));
            Served(p, k, state, connections[..c + 1]) == (Run(p, m, s, lines).0, m + |lines|)
  {
    hide Lines, Run, Received;
    assert connections[..c + 1][..c] == connections[..c];
  }

  // ----- the client -----

  /** What a read of the client yields before its deadline. */
  datatype ReadEvent = Chunk(bytes: seq<byte>) | Closed | Broken(message: string)

  datatype ClientError = TimedOut | ReadError(message: string)

  predicate EndsInNewline(b: seq<byte>) {
    b != [] && b[|b| - 1] == NEWLINE
  }

  function WithoutNewline(b: seq<byte>): seq<byte> {
    if EndsInNewline(b) then b[..|b| - 1] else b
  }

  /** The outcome of reading on with `buf` in hand; past the last event the deadline has passed. */
  function ReadOn(buf: seq<byte>, events: seq<ReadEvent>): Result<seq<byte>, ClientError>
    decreases |events|
  {
    if EndsInNewline(buf) then Ok(WithoutNewline(buf))
    else if events == [] then Err(TimedOut)
    else match events[0]
      case Chunk(bytes) => if bytes == [] then Ok(buf) else ReadOn(buf + bytes, events[1..])
      case Closed => Ok(buf)
      case Broken(message) => Err(ReadError(message))
  }

  /** Writes the request in chunks and a newline, then reads until the buffer ends in a newline. */
  method Request(line: seq<byte>, events: seq<ReadEvent>)
    returns (writes: seq<seq<byte>>, r: Result<seq<byte>, ClientError>)
    ensures Concat(writes) == line + [10] && forall w :: w in writes ==> 1 <= |w| <= 4096
    ensures r == ReadOn([], events)
  {
    writes := [];
    var sent := 0;
    while sent < |line|
      invariant sent <= |line| && Concat(writes) == line[..sent]
      invariant forall w :: w in writes ==> 1 <= |w| <= MAX_CHUNK
    {
      var next := if sent + MAX_CHUNK <= |line| then sent + MAX_CHUNK else |line|;
      assert (writes + [line[sent..next]])[..|writes|] == writes;
      assert line[..sent] + line[sent..next] == line[..next];
      writes := writes + [line[sent..next]];
      sent := next;
    }
    assert line[..sent] == line;
    assert (writes + [[NEWLINE]])[..|writes|] == writes;
    writes := writes + [[NEWLINE]];
    r := ReadReply(events);
  }

  method ReadReply(events: seq<ReadEvent>) returns (r: Result<seq<byte>, ClientError>)
    ensures r == ReadOn([], events)
  {
    var buf: seq<byte> := [];
    var i := 0;
    while !EndsInNewline(buf)
      invariant i <= |events| && ReadOn(buf, events[i..]) == ReadOn([], events)
      decreases |events| - i
    {
      if i == |events| {
        return Err(TimedOut);
      }
      assert events[i..][1..] == events[i + 1..];
      match events[i]
      case Broken(message) => return Err(ReadError(message));
      case Closed => break;
      case Chunk(bytes) =>
        if bytes == [] {
          break;
        }
        buf := buf + bytes;
        i := i + 1;
    }
    r := Ok(WithoutNewline(buf));
  }

  // ----- what the loops mean -----

  ghost predicate EndsInTen(b: seq<byte>) {
    b != [] && b[|b| - 1] as int == 10
  }

  /** The bytes of a connection are those of its reads up to the first that fails or is empty. */
  lemma {:induction false} ReceivedIsPrefix(input: seq<Read>, parts: seq<seq<byte>>)
    requires |parts| <= |input|
    requires forall i :: 0 <= i < |parts| ==> parts[i] != [] && input[i] == Data(parts[i])
    requires |parts| < |input| ==> input[|parts|].ReadFailed? || input[|parts|].bytes == []
    ensures Received(input) == Concat(parts)
    decreases parts
  {
    if parts != [] {
      ReceivedIsPrefix(input[1..], parts[1..]);
      ConcatInFront(parts[0], parts[1..]);
      assert parts == [parts[0]] + parts[1..];
    }
  }

  /** Each line is answered in the state that the one before left and others then changed. */
  lemma {:induction false} RunIsChain<S>(p: Process<S>, k: nat, state: S, lines: seq<seq<byte>>) returns (states: seq<S>)
    ensures |states| == |lines| + 1 && states[0] == state && |Run(p, k, state, lines).1| == |lines|
    ensures forall i :: 0 <= i < |lines| ==>
      p.handle(p.others(k + i, states[i]), lines[i]) == (states[i + 1], Run(p, k, state, lines).1[i])
    ensures Run(p, k, state, lines).0 == states[|lines|]
  {
    if lines == [] {
      states := [state];
    } else {
      var n := |lines| - 1;
      states := RunIsChain(p, k, state, lines[..n]);
      states := states + [Run(p, k, state, lines).0];
    }
  }

  /** All the lines of some connections, one after the other. */
  function AllLines(connections: seq<seq<Read>>): seq<seq<byte>> {
    if connections == [] then []
    else AllLines(connections[..|connections| - 1]) + Lines(Received(connections[|connections| - 1]))
  }

  lemma {:induction false} RunsJoin<S>(p: Process<S>, k: nat, state: S, a: seq<seq<byte>>, b: seq<seq<byte>>)
    ensures Run(p, k, state, a + b).0 == Run(p, k + |a|, Run(p, k, state, a).0, b).0
  {
    if b == [] {
      assert a + b == a;
    } else {
      var n := |b| - 1;
      RunsJoin(p, k, state, a, b[..n]);
      assert (a + b)[..|a| + n] == a + b[..n];
    }
  }

  /** Several connections leave the state that one connection with all their lines would leave. */
  lemma {:induction false} ServedIsRun<S>(p: Process<S>, k: nat, state: S, connections: seq<seq<Read>>)
    ensures Served(p, k, state, connections)
            == (Run(p, k, state, AllLines(connections)).0, k + |AllLines(connections)|)
  {
    hide Run, Lines, Received;
    if connections == [] {
      NothingYet(p, k, state);
    } else {
      var n := |connections| - 1;
      ServedIsRun(p, k, state, connections[..n]);
      RunsJoin(p, k, state, AllLines(connections[..n]), Lines(Received(connections[n])));
    }
  }

  lemma SameBytes(buf: seq<byte>, chunks: seq<seq<byte>>, i: nat)
    requires i < |chunks|
    ensures buf + chunks[0] + Concat(chunks[1..][..i]) == buf + Concat(chunks[..i + 1])
  {
    ConcatInFront(chunks[0], chunks[1..][..i]);
    assert chunks[..i + 1] == [chunks[0]] + chunks[1..][..i];
  }

  lemma ReadsOne(buf: seq<byte>, first: seq<byte>, events: seq<ReadEvent>)
    requires first != [] && !EndsInTen(buf)
    ensures ReadOn(buf, [Chunk(first)] + events) == ReadOn(buf + first, events)
  {
    assert ([Chunk(first)] + events)[1..] == events;
  }

  lemma EventsInFront(chunks: seq<seq<byte>>, tail: seq<ReadEvent>)
    requires chunks != []
    ensures Events(chunks) + tail == [Chunk(chunks[0])] + (Events(chunks[1..]) + tail)
  {
  }

  lemma {:induction false} ReadsOn(buf: seq<byte>, chunks: seq<seq<byte>>, tail: seq<ReadEvent>)
    requires forall i :: 0 <= i < |chunks| ==> chunks[i] != []
    requires forall i :: 0 <= i < |chunks| ==> !EndsInTen(buf + Concat(chunks[..i]))
    ensures ReadOn(buf, Events(chunks) + tail) == ReadOn(buf + Concat(chunks), tail)
    decreases |chunks|
  {
    hide ReadOn, EndsInTen, Events;
    NoEvents(tail);
    if chunks == [] {
      assert buf + [] == buf && Concat(chunks) == [];
    } else {
      var rest := chunks[1..];
      assert chunks[..0] == [] && Concat([]) == [] && buf + [] == buf;
      assert chunks[..|chunks|] == chunks && rest[..|rest|] == rest;
      forall i | 0 <= i < |rest|
        ensures !EndsInTen(buf + chunks[0] + Concat(rest[..i]))
      {
        SameBytes(buf, chunks, i);
      }
      EventsInFront(chunks, tail);
      ReadsOne(buf, chunks[0], Events(rest) + tail);
      ReadsOn(buf + chunks[0], rest, tail);
      SameBytes(buf, chunks, |rest|);
    }
  }

  lemma NoEvents(tail: seq<ReadEvent>)
    ensures Events([]) + tail == tail
  {
  }

  /**
    The client reads until what it has ends in a newline, and gives that without it. Before that, the passing of the
    deadline and a broken connection are errors; a closed one, or an empty read, ends the reply with what there is.
   */
  lemma ReadOutcome(chunks: seq<seq<byte>>, tail: seq<ReadEvent>)
    requires forall i :: 0 <= i < |chunks| ==> chunks[i] != [] && !EndsInTen(Concat(chunks[..i]))
    ensures var buf, r := Concat(chunks), ReadOn([], Events(chunks) + tail);
            if EndsInTen(buf) then r == Ok(buf[..|buf| - 1])
            else if tail == [] then r == Err(TimedOut)
            else match tail[0]
              case Closed => r == Ok(buf)
              case Broken(message) => r == Err(ReadError(message))
              case Chunk(bytes) => bytes == [] ==> r == Ok(buf)
  {
    assert forall i :: 0 <= i < |chunks| ==> [] + Concat(chunks[..i]) == Concat(chunks[..i]);
    ReadsOn([], chunks, tail);
    assert [] + Concat(chunks) == Concat(chunks);
  }

  // ----- the round trip -----

  function Events(chunks: seq<seq<byte>>): seq<ReadEvent> {
    seq(|chunks|, i requires 0 <= i < |chunks| => Chunk(chunks[i]))
  }

  ghost predicate Splits(chunks: seq<seq<byte>>, b: seq<byte>) {
    Concat(chunks) == b && forall i :: 0 <= i < |chunks| ==> chunks[i] != []
  }

  lemma {:induction false} ConcatInFront(first: seq<byte>, rest: seq<seq<byte>>)
    ensures Concat([first] + rest) == first + Concat(rest)
  {
    if rest == [] {
      assert [first] + rest == [first] && [first][..0] == [];
    } else {
      var n := |rest| - 1;
      assert ([first] + rest)[..n + 1] == [first] + rest[..n];
      ConcatInFront(first, rest[..n]);
    }
  }

  lemma {:induction false} ReadsWholeReply(buf: seq<byte>, chunks: seq<seq<byte>>, reply: seq<byte>)
    requires NEWLINE !in reply && buf + Concat(chunks) == reply + [NEWLINE]
    requires forall i :: 0 <= i < |chunks| ==> chunks[i] != []
    ensures ReadOn(buf, Events(chunks)) == Ok(reply)
    decreases |chunks|
  {
    if chunks == [] {
      assert buf == reply + [NEWLINE];
    } else {
      var rest := chunks[1..];
      assert chunks == [chunks[0]] + rest;
      ConcatInFront(chunks[0], rest);
      assert Events(chunks)[1..] == Events(rest);
      assert buf + chunks[0] + Concat(rest) == reply + [NEWLINE];
      assert |chunks[0]| >= 1;
      assert forall i :: 0 <= i < |buf| ==> buf[i] == (reply + [NEWLINE])[i];
      assert forall i :: 0 <= i < |buf| ==> buf[i] == reply[i];
      ReadsWholeReply(buf + chunks[0], rest, reply);
    }
  }

  /** The client gets the reply back from every split of it exactly when the reply contains no newline. */
  lemma ReplyFromEverySplit(reply: seq<byte>)
    ensures (forall chunks :: Splits(chunks, reply + [NEWLINE]) ==> ReadOn([], Events(chunks)) == Ok(reply))
            <==> NEWLINE !in reply
  {
    if NEWLINE !in reply {
      forall chunks | Splits(chunks, reply + [NEWLINE])
        ensures ReadOn([], Events(chunks)) == Ok(reply)
      {
        assert [] + Concat(chunks) == reply + [NEWLINE];
        ReadsWholeReply([], chunks, reply);
      }
    } else {
      var chunks := SplitAtNewline(reply);
    }
  }

  lemma SplitAtNewline(reply: seq<byte>) returns (chunks: seq<seq<byte>>)
    requires NEWLINE in reply
    ensures Splits(chunks, reply + [NEWLINE]) && ReadOn([], Events(chunks)) != Ok(reply)
  {
    var i := FirstNewline(reply);
    var first, second := reply[..i + 1], reply[i + 1..] + [NEWLINE];
    chunks := [first, second];
    assert chunks[..1] == [first] && [first][..0] == [];
    assert Concat([first]) == first;
    assert first + second == reply + [NEWLINE];
    assert Events(chunks)[0] == Chunk(first);
    assert ReadOn([], Events(chunks)) == ReadOn([] + first, Events(chunks)[1..]);
    assert [] + first == first && EndsInNewline(first);
  }

  lemma LineAlone(line: seq<byte>)
    requires NEWLINE !in line
    ensures Lines(line + [NEWLINE]) == [line]
  {
    LineInFront(line, []);
    assert line + [NEWLINE] + [] == line + [NEWLINE];
  }

  /** A request gets exactly the reply to its own line, however either side's reads split the bytes. */
  lemma RoundTrip<S>(p: Process<S>, k: nat, state: S, line: seq<byte>, input: seq<Read>, chunks: seq<seq<byte>>)
    requires NEWLINE !in line && NEWLINE !in Turn(p, k, state, line).1
    requires Received(input) == line + [NEWLINE]
    requires Splits(chunks, Framed(Run(p, k, state, Lines(Received(input))).1))
    ensures ReadOn([], Events(chunks)) == Ok(Turn(p, k, state, line).1)
    ensures Run(p, k, state, Lines(Received(input))).0 == Turn(p, k, state, line).0
  {
    LineAlone(line);
    OneTurn(p, k, state, line);
    hide Run, Turn, Lines, Framed, Received, ReadOn;
    ReplyFromEverySplit(Turn(p, k, state, line).1);
  }

  lemma OneTurn<S>(p: Process<S>, k: nat, state: S, line: seq<byte>)
    ensures Run(p, k, state, [line]) == (Turn(p, k, state, line).0, [Turn(p, k, state, line).1])
    ensures Framed([Turn(p, k, state, line).1]) == Turn(p, k, state, line).1 + [NEWLINE]
  {
    var reply := Turn(p, k, state, line).1;
    NothingYet(p, k, state);
    RunOneMore(p, k, state, [], line);
    FramedOneMore([], reply);
    hide Run, Turn, Framed;
    assert [] + [line] == [line] && [] + [reply] == [reply];
    assert [] + reply == reply;
  }
}

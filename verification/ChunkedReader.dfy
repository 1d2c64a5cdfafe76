/**
 The reader of chunked request bodies (task-3a/framework/dep/Simple-Web-Server/server_http.hpp).

 It keeps undecoded octets in a small streambuf and reads more from the connection as
 they are needed. `Decode` says what it makes of the octets, given how many of them had
 arrived at each chunk; the lemmas say when that makes no difference.
 */
module ChunkedReader {
  import opened Bytes
  import opened StreamBuffer
  import opened HexNumbers
  import opened AsioReads

  datatype Error = Protocol | PayloadTooLarge | LineTooLong | ConnectionClosed | LengthError

  datatype Outcome = Complete | Failed(error: Error)

  // ----- one chunk

  /** What becomes of `c`, the contents of the small streambuf, and `p`, what the peer still
      sends, when a chunk's data and the two octets after it are taken. */
  datatype Taking =
    | Cut                                        // the connection ends before that
    | Overrun                                    // there is no room for what had arrived
    | Taken(data: bytes, c: bytes, p: bytes)

  /** `additional` is how much of the two is taken to be in `c`, and `room` how much the
      request's streambuf can still store. */
  function TakeChunk(c: bytes, p: bytes, additional: nat, size: nat, room: nat): (t: Taking)
    requires additional <= |c|
    ensures t.Taken? ==> |t.data| <= room
  {
    if Min(size, additional) > room then Overrun
    else if size > additional then
      var missing := Min(size, room) - additional;
      if |p| < missing + 2 then Cut
      else Taken(c[..additional] + p[..missing], c[additional..], p[missing + 2..])
    else if size + 2 > additional then
      var unread := size + 2 - additional;
      if |p| < unread then Cut
      else Taken(c[..size], if unread == 1 then c[size + 1..] else c[size..], p[unread..])
    else
      Taken(c[..size], c[size + 2..], p)
  }

  /** The same for octets `rest` of which the first `behind`, and then `arrived` more, are
      in the small streambuf. The reader is not aware of the first ones. */
  function TakeAt(rest: bytes, behind: nat, arrived: nat, size: nat, room: nat): (t: Taking)
    requires behind + arrived <= |rest|
    ensures t.Taken? ==> |t.data| <= room
  {
    TakeChunk(rest[..behind + arrived], rest[behind + arrived..], arrived, size, room)
  }

  ghost predicate SameTaking(t: Taking, u: Taking) {
    match t
    case Cut => u.Cut?
    case Overrun => u.Overrun?
    case Taken(data, c, p) => u.Taken? && u.data == data && u.c + u.p == c + p
  }

  /** It makes no difference how much has arrived. */
  ghost predicate Steady(rest: bytes, behind: nat, size: nat, room: nat) {
    forall x: nat, y: nat :: behind + x <= |rest| && behind + y <= |rest| ==>
      SameTaking(TakeAt(rest, behind, x, size, room), TakeAt(rest, behind, y, size, room))
  }

  // ----- all chunks

  /** What a chunk's line comes to; `rest` is what follows it. `behind` octets of that, up to
      CRLF, are left behind when a line feed on its own has ended the line before. */
  datatype Line = Bad(error: Error) | Last(left: bytes) | Announces(rest: bytes, size: nat, behind: nat)

  /** `input` is everything from the line on; the small streambuf holds `maxLine` octets. */
  function LineOf(input: bytes, maxLine: nat): Line {
    match ReadUntilResult(input, maxLine, CRLF)
    case NotFound => Bad(LineTooLong)
    case EndOfFile => Bad(ConnectionClosed)
    case Found(n) =>
      match Stoul16(FirstLine(input))
      case InvalidArgument => Bad(Protocol)
      case OutOfRange => Bad(Protocol)
      case Value(size) =>
        if size == 0 then Last(AfterLine(input))
        else
          FoundIsPastLine(input, maxLine, n);
          Announces(AfterLine(input), size, n - |FirstLine(input)| - 1)
  }

  lemma FoundIsPastLine(input: bytes, maxLine: nat, n: nat)
    requires ReadUntilResult(input, maxLine, CRLF) == Found(n)
    ensures 2 <= n <= |input| && input[n - 2..n] == CRLF && LF in input && |FirstLine(input)| < n
    ensures AfterLine(input) == input[|FirstLine(input)| + 1..]
  {
    FirstEndMatches(input, 0, CRLF);
    assert input[n - 2..n][1] == input[n - 1];
    LineIsWithin(input, n);
  }

  lemma LineIsWithin(input: bytes, n: nat)
    requires 1 <= n <= |input| && input[n - 1] == LF
    ensures LF in input && |FirstLine(input)| < n && AfterLine(input) == input[|FirstLine(input)| + 1..]
  {
  }

  /** What reading comes to: the body and what is left, or an error. `Impossible` is for
      arrivals that cannot be: of more octets than there are, or for too few chunks. */
  datatype Decoded = Body(data: bytes, left: bytes) | Fails(error: Error) | Impossible

  /** A chunk has been stored and reading goes on; or there is none to store. */
  datatype Next = Chunk(data: bytes, left: bytes) | Stop(result: Decoded)

  /** `stored` is the size of the body so far, `maxBody` the maximum of the request's streambuf,
      and arrivals[0] how much of what follows the line's CRLF had arrived. */
  function NextChunk(line: Line, stored: nat, maxBody: nat, arrivals: seq<nat>): (next: Next)
    ensures next.Chunk? ==> arrivals != [] && (stored <= maxBody ==> stored + |next.data| <= maxBody)
  {
    match line
    case Bad(error) => Stop(Fails(error))
    case Last(left) => Stop(Body([], left))
    case Announces(rest, size, behind) =>
      if (size + stored) % ULONG_RANGE > maxBody then Stop(Fails(PayloadTooLarge))
      else if arrivals == [] || behind + arrivals[0] > |rest| then Stop(Impossible)
      else
        NextAfter(TakeAt(rest, behind, arrivals[0], size, Max(0, maxBody - stored)))
  }

  function NextAfter(t: Taking): Next {
    match t
    case Cut => Stop(Fails(ConnectionClosed))
    case Overrun => Stop(Fails(LengthError))
    case Taken(data, c, p) => Chunk(data, c + p)
  }

  lemma FirstArrival(line: Line, stored: nat, maxBody: nat, arrivals: seq<nat>, others: seq<nat>)
    requires |arrivals| == 1
    ensures NextChunk(line, stored, maxBody, arrivals + others) == NextChunk(line, stored, maxBody, arrivals)
  {
  }

  /** From everything from a chunk's line on, the size of the body so far, and arrivals. */
  type Reader = (bytes, nat, seq<nat>) -> Next

  function ReaderOf(maxLine: nat, maxBody: nat): Reader {
    (input: bytes, stored: nat, arrivals: seq<nat>) => NextChunk(LineOf(input, maxLine), stored, maxBody, arrivals)
  }

  /** `arrivals` says, chunk by chunk, what had arrived. */
  function Decode(reader: Reader, input: bytes, stored: nat, arrivals: seq<nat>): Decoded
    decreases |arrivals|
  {
    match reader(input, stored, arrivals)
    case Stop(result) => result
    case Chunk(data, left) =>
      if arrivals == [] then Impossible else After(data, Decode(reader, left, stored + |data|, arrivals[1..]))
  }

  /** One chunk's data, and then what the others come to. */
  function After(chunk: bytes, others: Decoded): Decoded {
    match others
    case Body(data, left) => Body(chunk + data, left)
    case _ => others
  }

  // ----- when it makes no difference what has arrived

  lemma TakeCounted(rest: bytes, arrived: nat, size: nat, room: nat)
    requires arrived <= |rest| && size <= room
    ensures var t := TakeAt(rest, 0, arrived, size, room);
      if |rest| < size + 2 then t == Cut
      else t.Taken? && t.data == rest[..size] && t.c + t.p == rest[size + 2..]
  {
    var c, p := rest[..arrived], rest[arrived..];
    if size > arrived && |rest| >= size + 2 {
      assert c + p[..size - arrived] == rest[..size] && [] + p[size - arrived + 2..] == rest[size + 2..];
    } else if size + 2 > arrived && |rest| >= size + 2 {
      assert c[..size] == rest[..size] && p[size + 2 - arrived..] == rest[size + 2..];
    } else if |rest| >= size + 2 {
      assert c[..size] == rest[..size] && c[size + 2..] + p == rest[size + 2..];
    }
  }

  lemma TakeShort(rest: bytes, behind: nat, arrived: nat, size: nat, room: nat)
    requires behind + arrived <= |rest|
    requires if size > room then |rest| <= behind + room else |rest| < behind + size + 2
    ensures TakeAt(rest, behind, arrived, size, room) == Cut
  {
  }

  /** Nothing had arrived, or exactly the data. */
  lemma TakeNoneOrData(rest: bytes, behind: nat, size: nat, room: nat)
    requires 0 < size <= room && behind + size + 2 <= |rest|
    ensures var t, u := TakeAt(rest, behind, 0, size, room), TakeAt(rest, behind, size, size, room);
      t.Taken? && u.Taken?
      && t.c + t.p == rest[..behind] + rest[behind + size + 2..]
      && u.c + u.p == rest[size..size + behind] + rest[behind + size + 2..]
  {
  }

  /** Also half of the line end had arrived. */
  lemma TakeOneMore(rest: bytes, behind: nat, size: nat, room: nat)
    requires 0 < size <= room && behind + size + 2 <= |rest|
    ensures var v := TakeAt(rest, behind, size + 1, size, room);
      v.Taken? && v.c + v.p == rest[size + 1..size + 1 + behind] + rest[behind + size + 2..]
  {
  }

  lemma SameStart(x: bytes, y: bytes, tail: bytes, i: nat)
    requires i < |x| == |y| && x + tail == y + tail
    ensures x[i] == y[i]
  {
    assert (x + tail)[i] == (y + tail)[i];
  }

  /** CRLF left behind gives different arrivals away. */
  lemma BehindShows(rest: bytes, behind: nat, size: nat, room: nat)
    requires 0 < size <= room && behind + size + 2 <= |rest|
    requires 2 <= behind && rest[behind - 2..behind] == CRLF
    ensures !Steady(rest, behind, size, room)
  {
    var t, u := TakeAt(rest, behind, 0, size, room), TakeAt(rest, behind, size, size, room);
    var v, tail := TakeAt(rest, behind, size + 1, size, room), rest[behind + size + 2..];
    TakeNoneOrData(rest, behind, size, room);
    TakeOneMore(rest, behind, size, room);
    assert rest[behind - 2..behind][0] == rest[behind - 2] && rest[behind - 2..behind][1] == rest[behind - 1];
    if SameTaking(t, u) && SameTaking(u, v) {
      SameStart(rest[..behind], rest[size..size + behind], tail, behind - 2);
      SameStart(rest[..behind], rest[size..size + behind], tail, behind - 1);
      SameStart(rest[size..size + behind], rest[size + 1..size + 1 + behind], tail, behind - 2);
    }
  }

  /** For all chunks: it makes no difference what has arrived exactly when the line was
      counted right or the connection ends too early, provided there is room; and without
      room, which only a size that wraps around can bring about, when nothing can overrun. */
  lemma SteadyIff(rest: bytes, size: nat, behind: nat, room: nat)
    requires behind <= |rest| && size > 0
    requires behind > 0 ==> 2 <= behind && rest[behind - 2..behind] == CRLF
    ensures Steady(rest, behind, size, room)
       <==> if size > room then |rest| <= behind + room else behind == 0 || |rest| < behind + size + 2
  {
    if size > room && |rest| > behind + room {
      assert TakeAt(rest, behind, room + 1, size, room) == Overrun != TakeAt(rest, behind, 0, size, room);
    } else if size <= room && behind > 0 && |rest| >= behind + size + 2 {
      BehindShows(rest, behind, size, room);
    } else {
      forall x: nat, y: nat | behind + x <= |rest| && behind + y <= |rest|
        ensures SameTaking(TakeAt(rest, behind, x, size, room), TakeAt(rest, behind, y, size, room))
      {
        if size <= room && behind == 0 {
          TakeCounted(rest, x, size, room);
          TakeCounted(rest, y, size, room);
        } else {
          TakeShort(rest, behind, x, size, room);
          TakeShort(rest, behind, y, size, room);
        }
      }
    }
  }

  /** Every line that announces a chunk meets the conditions of `SteadyIff`. */
  lemma LineLeavesCrlf(input: bytes, maxLine: nat)
    requires LineOf(input, maxLine).Announces?
    ensures var Announces(rest, size, behind) := LineOf(input, maxLine);
      && behind <= |rest| && size > 0
      && (behind > 0 ==> 2 <= behind && rest[behind - 2..behind] == CRLF)
  {
    var n := ReadUntilResult(input, maxLine, CRLF).n;
    FoundIsPastLine(input, maxLine, n);
    BehindEndsInCrlf(input, |FirstLine(input)|, n);
  }

  lemma BehindEndsInCrlf(input: bytes, first: nat, n: nat)
    requires 2 <= n <= |input| && first < n && input[first] == LF && input[n - 2..n] == CRLF
    ensures first + 1 < n ==> first + 3 <= n && input[first + 1..][n - first - 3..n - first - 1] == CRLF
  {
    assert input[n - 2..n][0] == input[n - 2];
    if first + 1 < n {
      assert first != n - 2;
      assert input[first + 1..][n - first - 3..n - first - 1] == input[n - 2..n];
    }
  }

  /** Whatever has arrived, reading goes on in the same way. */
  ghost predicate SteadyAt(reader: Reader, input: bytes, stored: nat) {
    forall x, y :: reader(input, stored, x) != Stop(Impossible) && reader(input, stored, y) != Stop(Impossible) ==>
      reader(input, stored, x) == reader(input, stored, y)
  }

  lemma SameNext(line: Line, stored: nat, maxBody: nat, x: seq<nat>, y: seq<nat>)
    requires line.Announces? ==> Steady(line.rest, line.behind, line.size, Max(0, maxBody - stored))
    requires NextChunk(line, stored, maxBody, x) != Stop(Impossible) && NextChunk(line, stored, maxBody, y) != Stop(Impossible)
    ensures NextChunk(line, stored, maxBody, x) == NextChunk(line, stored, maxBody, y)
  {
  }

  lemma IsPossible(line: Line, stored: nat, maxBody: nat, x: nat)
    requires line.Announces? && line.behind + x <= |line.rest|
    ensures NextChunk(line, stored, maxBody, [x]) != Stop(Impossible)
  {
  }

  lemma SameTakingIf(line: Line, stored: nat, maxBody: nat, x: nat, y: nat)
    requires line.Announces? && (line.size + stored) % ULONG_RANGE <= maxBody
    requires line.behind + x <= |line.rest| && line.behind + y <= |line.rest|
    requires NextChunk(line, stored, maxBody, [x]) == NextChunk(line, stored, maxBody, [y])
    ensures var room := Max(0, maxBody - stored);
      SameTaking(TakeAt(line.rest, line.behind, x, line.size, room), TakeAt(line.rest, line.behind, y, line.size, room))
  {
  }

  /** The condition of `SteadyIff` on what a line comes to. */
  predicate Counted(line: Line, stored: nat, maxBody: nat) {
    match line
    case Bad(_) => true
    case Last(_) => true
    case Announces(rest, size, behind) =>
      var room := Max(0, maxBody - stored);
      (size + stored) % ULONG_RANGE > maxBody
      || if size > room then |rest| <= behind + room else behind == 0 || |rest| < behind + size + 2
  }

  ghost predicate LineSteady(line: Line, stored: nat, maxBody: nat) {
    forall x, y :: NextChunk(line, stored, maxBody, x) != Stop(Impossible) && NextChunk(line, stored, maxBody, y) != Stop(Impossible) ==>
      NextChunk(line, stored, maxBody, x) == NextChunk(line, stored, maxBody, y)
  }

  lemma LineSteadyIff(line: Line, stored: nat, maxBody: nat)
    requires line.Announces? && (line.size + stored) % ULONG_RANGE <= maxBody
    ensures LineSteady(line, stored, maxBody) <==> Steady(line.rest, line.behind, line.size, Max(0, maxBody - stored))
  {
    var room: nat := Max(0, maxBody - stored);
    if LineSteady(line, stored, maxBody) {
      forall x: nat, y: nat | line.behind + x <= |line.rest| && line.behind + y <= |line.rest|
        ensures SameTaking(TakeAt(line.rest, line.behind, x, line.size, room), TakeAt(line.rest, line.behind, y, line.size, room))
      {
        IsPossible(line, stored, maxBody, x);
        IsPossible(line, stored, maxBody, y);
        SameTakingIf(line, stored, maxBody, x, y);
      }
    }
    if Steady(line.rest, line.behind, line.size, room) {
      forall x, y | NextChunk(line, stored, maxBody, x) != Stop(Impossible) && NextChunk(line, stored, maxBody, y) != Stop(Impossible)
        ensures NextChunk(line, stored, maxBody, x) == NextChunk(line, stored, maxBody, y)
      {
        SameNext(line, stored, maxBody, x, y);
      }
    }
  }

  lemma FinalIsSteady(line: Line, stored: nat, maxBody: nat)
    requires line.Announces? ==> (line.size + stored) % ULONG_RANGE > maxBody
    ensures LineSteady(line, stored, maxBody)
  {
  }

  lemma LineSteadyIffCounted(line: Line, stored: nat, maxBody: nat)
    requires line.Announces? ==>
      && line.behind <= |line.rest| && line.size > 0
      && (line.behind > 0 ==> 2 <= line.behind && line.rest[line.behind - 2..line.behind] == CRLF)
    ensures LineSteady(line, stored, maxBody) <==> Counted(line, stored, maxBody)
  {
    if line.Announces? && (line.size + stored) % ULONG_RANGE <= maxBody {
      SteadyIff(line.rest, line.size, line.behind, Max(0, maxBody - stored));
      LineSteadyIff(line, stored, maxBody);
    } else {
      FinalIsSteady(line, stored, maxBody);
    }
  }

  /** For all octets on the wire and all limits: it makes no difference to the next chunk
      what has arrived if and only if its line is counted right or is final, or the chunk
      is refused or cut short anyway. */
  lemma SteadyAtIff(input: bytes, stored: nat, maxLine: nat, maxBody: nat)
    ensures SteadyAt(ReaderOf(maxLine, maxBody), input, stored) <==> Counted(LineOf(input, maxLine), stored, maxBody)
  {
    var line := LineOf(input, maxLine);
    if line.Announces? {
      LineLeavesCrlf(input, maxLine);
    }
    LineSteadyIffCounted(line, stored, maxBody);
    SteadyAtLine(ReaderOf(maxLine, maxBody), input, stored, line, maxBody);
  }

  lemma SteadyAtLine(reader: Reader, input: bytes, stored: nat, line: Line, maxBody: nat)
    requires forall x :: reader(input, stored, x) == NextChunk(line, stored, maxBody, x)
    ensures SteadyAt(reader, input, stored) <==> LineSteady(line, stored, maxBody)
  {
  }

  /** All the chunks that are reached with these arrivals are steady. */
  ghost predicate AllSteady(reader: Reader, input: bytes, stored: nat, arrivals: seq<nat>)
    decreases |arrivals|
  {
    var next := reader(input, stored, arrivals);
    && SteadyAt(reader, input, stored)
    && (next.Chunk? && arrivals != [] ==> AllSteady(reader, next.left, stored + |next.data|, arrivals[1..]))
  }

  /** Then any other arrivals lead to the same. */
  lemma {:induction false} ArrivalsDoNotMatter(reader: Reader, input: bytes, stored: nat, x: seq<nat>, y: seq<nat>)
    requires AllSteady(reader, input, stored, x)
    requires Decode(reader, input, stored, x) != Impossible && Decode(reader, input, stored, y) != Impossible
    ensures Decode(reader, input, stored, x) == Decode(reader, input, stored, y)
    decreases |x|
  {
    var next := reader(input, stored, x);
    assert next == reader(input, stored, y);
    if next.Chunk? {
      ArrivalsDoNotMatter(reader, next.left, stored + |next.data|, x[1..], y[1..]);
    }
  }

  /** `std::getline` on a streambuf that holds a line feed. */
  method GetLine(sb: StreamBuf) returns (line: bytes)
    requires sb.Valid() && LF in sb.Contents()
    modifies sb
    ensures sb.Valid() && sb.buffer == old(sb.buffer)
    ensures line == FirstLine(old(sb.Contents())) && sb.Contents() == AfterLine(old(sb.Contents()))
    ensures |line| < |old(sb.Contents())|
  {
    ghost var contents := sb.Contents();
    line := [];
    while true
      invariant sb.Valid() && sb.buffer == old(sb.buffer)
      invariant InLine(contents, line, sb.Contents())
      decreases |sb.Contents()|
    {
      ghost var before := sb.Contents();
      var c := sb.Bump();
      LineGoesOn(contents, line, before, sb.Contents());
      if c == Some(LF) {
        return;
      }
      line := line + [c.value];
    }
  }

  /** `line` has been taken from the line at the start of `contents`, and is not all of it. */
  ghost predicate InLine(contents: bytes, line: bytes, rest: bytes) {
    contents == line + rest && LF !in line && LF in rest
  }

  lemma LineGoesOn(contents: bytes, line: bytes, rest: bytes, next: bytes)
    requires InLine(contents, line, rest) && next == rest[1..]
    ensures rest[0] != LF ==> InLine(contents, line + [rest[0]], next)
    ensures rest[0] == LF ==> FirstLine(contents) == line && AfterLine(contents) == next && |line| < |contents|
  {
    assert rest == [rest[0]] + next;
    Regroup(line, [rest[0]], next);
    if rest[0] == LF {
      LineSplits(line, next);
    }
  }

  /** target.commit(buffer_copy(target.prepare(n), source.data(), n)); source.consume(n). */
  method Move(source: StreamBuf, target: StreamBuf, n: nat) returns (ok: bool)
    requires source != target && source.buffer != target.buffer
    requires source.Valid() && target.Valid() && n <= source.Size()
    modifies source, target, target.buffer
    ensures source.Valid() && source.buffer == old(source.buffer)
    ensures target.Valid() && (target.buffer == old(target.buffer) || fresh(target.buffer))
    ensures ok <==> old(target.Size()) + n <= target.maxSize
    ensures ok ==> target.Contents() == old(target.Contents()) + old(source.Contents())[..n]
    ensures ok ==> source.Contents() == old(source.Contents())[n..]
    ensures !ok ==> source.Contents() == old(source.Contents())
  {
    var data := source.Contents()[..n];
    ok := target.Receive(n, data);
    if ok {
      source.Consume(n);
    }
  }

  lemma NothingMoved(target: bytes, source: bytes)
    ensures target + source[..0] == target && source[0..] == source
  {
  }

  /** `Move`, unless there is nothing to move. */
  method MoveArrived(source: StreamBuf, target: StreamBuf, n: nat) returns (ok: bool)
    requires source != target && source.buffer != target.buffer
    requires source.Valid() && target.Valid() && n <= |source.Contents()|
    modifies source, target, target.buffer
    ensures source.Valid() && source.buffer == old(source.buffer)
    ensures target.Valid() && (target.buffer == old(target.buffer) || fresh(target.buffer))
    ensures ok <==> |old(target.Contents())| + n <= target.maxSize
    ensures ok ==> target.Contents() == old(target.Contents()) + old(source.Contents())[..n]
    ensures ok ==> source.Contents() == old(source.Contents())[n..]
  {
    ok := true;
    if n > 0 {
      ok := Move(source, target, n);
    } else {
      NothingMoved(target.Contents(), source.Contents());
    }
  }

  /** Drops `n` octets with `istream.get()`. */
  method Get(sb: StreamBuf, n: nat)
    requires sb.Valid() && n <= |sb.Contents()|
    modifies sb
    ensures sb.Valid() && sb.buffer == old(sb.buffer)
    ensures sb.Contents() == old(sb.Contents())[n..]
  {
    for i := 0 to n
      invariant sb.Valid() && sb.buffer == old(sb.buffer)
      invariant sb.Contents() == old(sb.Contents())[i..]
    {
      var _ := sb.Bump();
    }
  }

  /** Reads octets of the connection that nobody keeps, at most two. */
  method Skip(socket: Socket, n: nat) returns (ok: bool)
    requires n <= 2
    modifies socket
    ensures ok <==> n <= |old(socket.pending)|
    ensures ok ==> socket.pending == old(socket.pending)[n..]
  {
    var nullBuffer := new StreamBuf(2);
    ok := AsyncReadExactly(socket, nullBuffer, n);
  }

  /** Chunk data is missing: the rest of it, or as much as there is room for, and the line
      end are read from the connection. */
  method ReadMissing(socket: Socket, request: StreamBuf, missing: nat) returns (ok: bool)
    requires request.Valid()
    modifies socket, request, request.buffer
    ensures request.Valid() && (request.buffer == old(request.buffer) || fresh(request.buffer))
    ensures var n := Min(missing, request.maxSize - |old(request.Contents())|);
      && (ok <==> n + 2 <= |old(socket.pending)|)
      && (ok ==> request.Contents() == old(request.Contents()) + old(socket.pending)[..n]
                 && socket.pending == old(socket.pending)[n + 2..])
  {
    ghost var pending, n := socket.pending, Min(missing, request.maxSize - |request.Contents()|);
    ok := AsyncReadExactly(socket, request, missing);
    if ok {
      ok := Skip(socket, 2);
      assert ok && n + 2 <= |pending| ==> pending[n..][2..] == pending[n + 2..];
    }
  }

  /** Takes the chunk's data and the two octets after it; the three cases are what had
      arrived. The error is returned if there is one. */
  method ReadChunkData(socket: Socket, request: StreamBuf, chunk: StreamBuf, size: nat, additional: nat, ghost room: nat)
    returns (error: Option<Error>)
    requires request != chunk && request.buffer != chunk.buffer && request.Valid() && chunk.Valid()
    requires additional <= |chunk.Contents()| && room == request.maxSize - |request.Contents()|
    modifies socket, request, request.buffer, chunk, chunk.buffer
    ensures request.Valid() && (request.buffer == old(request.buffer) || fresh(request.buffer))
    ensures chunk.Valid() && chunk.buffer == old(chunk.buffer)
    ensures Gives(TakeChunk(old(chunk.Contents()), old(socket.pending), additional, size, room),
                  old(request.Contents()), error, request.Contents(), chunk.Contents(), socket.pending)
  {
    ghost var c, p, r := chunk.Contents(), socket.pending, request.Contents();
    var ok := MoveArrived(chunk, request, Min(size, additional));
    if !ok {
      return Some(LengthError);
    }
    if size > additional {
      ok := ReadMissing(socket, request, size - additional);
      DataMissing(c, p, r, additional, size, room, ok, request.Contents(), chunk.Contents(), socket.pending);
    } else if size + 2 > additional {
      if size + 2 - additional == 1 {
        Get(chunk, 1);
      }
      ok := Skip(socket, size + 2 - additional);
      EndMissing(c, p, r, additional, size, room, ok, request.Contents(), chunk.Contents(), socket.pending);
    } else {
      Get(chunk, 2);
      AllThere(c, p, r, additional, size, room, request.Contents(), chunk.Contents(), socket.pending);
    }
    return if ok then None else Some(ConnectionClosed);
  }

  lemma DataMissing(c: bytes, p: bytes, r: bytes, additional: nat, size: nat, room: nat, ok: bool,
                    r': bytes, c': bytes, p': bytes)
    requires additional <= |c| && additional < size && additional <= room
    requires var n := Min(size - additional, room - additional);
      && (ok <==> n + 2 <= |p|)
      && (ok ==> r' == r + c[..additional] + p[..n] && c' == c[additional..] && p' == p[n + 2..])
    ensures Gives(TakeChunk(c, p, additional, size, room), r, if ok then None else Some(ConnectionClosed), r', c', p')
  {
  }

  lemma EndMissing(c: bytes, p: bytes, r: bytes, additional: nat, size: nat, room: nat, ok: bool,
                   r': bytes, c': bytes, p': bytes)
    requires additional <= |c| && size <= additional < size + 2 && size <= room
    requires ok <==> size + 2 - additional <= |p|
    requires r' == r + c[..size] && c' == (if size + 2 - additional == 1 then c[size..][1..] else c[size..])
    requires ok ==> p' == p[size + 2 - additional..]
    ensures Gives(TakeChunk(c, p, additional, size, room), r, if ok then None else Some(ConnectionClosed), r', c', p')
  {
  }

  lemma AllThere(c: bytes, p: bytes, r: bytes, additional: nat, size: nat, room: nat, r': bytes, c': bytes, p': bytes)
    requires size + 2 <= additional <= |c| && size <= room && r' == r + c[..size] && c' == c[size..][2..] && p' == p
    ensures Gives(TakeChunk(c, p, additional, size, room), r, None, r', c', p')
  {
  }

  ghost predicate Gives(t: Taking, was: bytes, error: Option<Error>, request: bytes, c: bytes, p: bytes) {
    match t
    case Cut => error == Some(ConnectionClosed)
    case Overrun => error == Some(LengthError)
    case Taken(data, c', p') => error == None && request == was + data && c == c' && p == p'
  }

  // ----- reading a line

  lemma LineOfWhole(c: bytes, p: bytes)
    requires LF in c
    ensures FirstLine(c + p) == FirstLine(c) && AfterLine(c + p) == AfterLine(c) + p
  {
    assert c + p == FirstLine(c) + [LF] + (AfterLine(c) + p);
    LineSplits(FirstLine(c), AfterLine(c) + p);
  }

  /** Takes a line that ends within the first `n` octets; `behind` of those are not in it. */
  method TakeLine(chunk: StreamBuf, n: nat) returns (size: Stoul, behind: nat)
    requires chunk.Valid() && 2 <= n <= |chunk.Contents()| && chunk.Contents()[n - 1] == LF
    modifies chunk
    ensures chunk.Valid() && chunk.buffer == old(chunk.buffer)
    ensures chunk.Contents() == AfterLine(old(chunk.Contents())) && |chunk.Contents()| < |old(chunk.Contents())|
    ensures size == Stoul16(FirstLine(old(chunk.Contents())))
    ensures behind == n - |FirstLine(old(chunk.Contents()))| - 1 && behind <= |chunk.Contents()|
  {
    ghost var c := chunk.Contents();
    LineIsWithin(c, n);
    var line := GetLine(chunk);
    behind := n - (|line| + 1);
    size := Stoul16(line);
  }

  /** How reading a line ends: with `stop`, or with a size and what is left behind. */
  ghost predicate ReadsLine(line: Line, stop: Option<Outcome>, size: nat, behind: nat, left: bytes) {
    match line
    case Bad(error) => stop == Some(Failed(error))
    case Last(rest) => stop == Some(Complete) && left == rest
    case Announces(rest, size', behind') => stop == None && size == size' > 0 && behind == behind' && left == rest
  }

  method ReadLine(socket: Socket, chunk: StreamBuf) returns (stop: Option<Outcome>, size: nat, behind: nat)
    requires chunk.Valid()
    modifies socket, chunk, chunk.buffer
    ensures chunk.Valid() && (chunk.buffer == old(chunk.buffer) || fresh(chunk.buffer))
    ensures stop.None? ==> |chunk.Contents()| + |socket.pending| < old(|chunk.Contents()| + |socket.pending|)
    ensures behind <= |chunk.Contents()|
    ensures ReadsLine(LineOf(old(chunk.Contents() + socket.pending), chunk.maxSize),
                      stop, size, behind, chunk.Contents() + socket.pending)
  {
    ghost var input := chunk.Contents() + socket.pending;
    stop, size, behind := None, 0, 0;
    var found := AsyncReadUntil(socket, chunk, CRLF);
    if found.Found? {
      ghost var c, p := chunk.Contents(), socket.pending;
      FoundIsPastLine(input, chunk.maxSize, found.n);
      assert c[found.n - 1] == input[found.n - 2..found.n][1];
      LineIsWithin(c, found.n);
      LineOfWhole(c, p);
      var parsed;
      parsed, behind := TakeLine(chunk, found.n);
      stop, size := Verdict(parsed), if parsed.Value? then parsed.value else 0;
      LineTaken(input, chunk.maxSize, found.n, parsed, behind, chunk.Contents() + socket.pending);
    } else {
      stop := Some(Failed(if found.NotFound? then LineTooLong else ConnectionClosed));
    }
  }

  /** Whether there is nothing to read after a line with this value. */
  function Verdict(parsed: Stoul): Option<Outcome> {
    if !parsed.Value? then Some(Failed(Protocol))
    else if parsed.value == 0 then Some(Complete)
    else None
  }

  lemma LineTaken(input: bytes, maxLine: nat, n: nat, parsed: Stoul, behind: nat, left: bytes)
    requires ReadUntilResult(input, maxLine, CRLF) == Found(n) && LF in input && |FirstLine(input)| < n
    requires parsed == Stoul16(FirstLine(input)) && behind == n - |FirstLine(input)| - 1 && left == AfterLine(input)
    ensures ReadsLine(LineOf(input, maxLine), Verdict(parsed), if parsed.Value? then parsed.value else 0, behind, left)
  {
  }

  // ----- reading the body

  /** `outcome` and the new state are what `decoded` says. */
  ghost predicate Reads(decoded: Decoded, was: bytes, outcome: Outcome, request: bytes, left: bytes) {
    match decoded
    case Body(data, rest) => outcome == Complete && request == was + data && left == rest
    case Fails(error) => outcome == Failed(error)
    case Impossible => false
  }

  /** Either one chunk was stored and reading goes on, or it is done. */
  ghost predicate ReadsOne(next: Next, was: bytes, done: Option<Outcome>, request: bytes, left: bytes) {
    match done
    case Some(outcome) => next.Stop? && Reads(next.result, was, outcome, request, left)
    case None => next.Chunk? && request == was + next.data && left == next.left
  }

  /** Reads a line and the chunk that it announces; `arrivals` is what had arrived of that. */
  method ReadChunk(socket: Socket, request: StreamBuf, chunk: StreamBuf)
    returns (done: Option<Outcome>, ghost arrivals: seq<nat>)
    requires request != chunk && request.buffer != chunk.buffer && request.Valid() && chunk.Valid()
    modifies socket, request, request.buffer, chunk, chunk.buffer
    ensures request.Valid() && (request.buffer == old(request.buffer) || fresh(request.buffer))
    ensures chunk.Valid() && (chunk.buffer == old(chunk.buffer) || fresh(chunk.buffer))
    ensures request.buffer != chunk.buffer && |arrivals| <= 1
    ensures done.None? ==> |chunk.Contents()| + |socket.pending| < old(|chunk.Contents()| + |socket.pending|)
    ensures ReadsOne(NextChunk(LineOf(old(chunk.Contents() + socket.pending), chunk.maxSize),
                               |old(request.Contents())|, request.maxSize, arrivals),
                     old(request.Contents()), done, request.Contents(), chunk.Contents() + socket.pending)
  {
    ghost var r, line := request.Contents(), LineOf(chunk.Contents() + socket.pending, chunk.maxSize);
    var stop, size, behind := ReadLine(socket, chunk);
    arrivals := [];
    if stop.Some? {
      done := stop;
      NoChunk(line, r, request.maxSize, stop.value, size, behind, chunk.Contents() + socket.pending);
    } else {
      done, arrivals := TakeAnnounced(socket, request, chunk, size, behind, line);
    }
  }

  /** What follows the line of a chunk of `size` octets. */
  method TakeAnnounced(socket: Socket, request: StreamBuf, chunk: StreamBuf, size: nat, behind: nat, ghost line: Line)
    returns (done: Option<Outcome>, ghost arrivals: seq<nat>)
    requires request != chunk && request.buffer != chunk.buffer && request.Valid() && chunk.Valid()
    requires behind <= |chunk.Contents()|
    requires ReadsLine(line, None, size, behind, chunk.Contents() + socket.pending)
    modifies socket, request, request.buffer, chunk, chunk.buffer
    ensures request.Valid() && (request.buffer == old(request.buffer) || fresh(request.buffer))
    ensures chunk.Valid() && chunk.buffer == old(chunk.buffer) && |arrivals| <= 1
    ensures done.None? ==> |chunk.Contents()| + |socket.pending| <= old(|chunk.Contents()| + |socket.pending|)
    ensures ReadsOne(NextChunk(line, |old(request.Contents())|, request.maxSize, arrivals),
                     old(request.Contents()), done, request.Contents(), chunk.Contents() + socket.pending)
  {
    ghost var c, p, r := chunk.Contents(), socket.pending, request.Contents();
    var additional: nat := chunk.Size() - behind;
    arrivals := [additional];
    if (size + request.Size()) % ULONG_RANGE > request.maxSize {
      done := Some(Failed(PayloadTooLarge));
      TooLarge(line, r, size, behind, request.maxSize, arrivals, c + p);
    } else {
      ghost var room: nat := request.maxSize - |r|;
      var error := ReadChunkData(socket, request, chunk, size, additional, room);
      done := if error.Some? then Some(Failed(error.value)) else None;
      OneChunk(line, c, p, r, size, behind, additional, room, request.maxSize, arrivals, error, done,
               request.Contents(), chunk.Contents(), socket.pending);
    }
  }

  lemma TooLarge(line: Line, r: bytes, size: nat, behind: nat, maxBody: nat, arrivals: seq<nat>, left: bytes)
    requires ReadsLine(line, None, size, behind, left) && (size + |r|) % ULONG_RANGE > maxBody
    ensures ReadsOne(NextChunk(line, |r|, maxBody, arrivals), r, Some(Failed(PayloadTooLarge)), r, left)
  {
  }

  lemma NoChunk(line: Line, r: bytes, maxBody: nat, outcome: Outcome, size: nat, behind: nat, left: bytes)
    requires ReadsLine(line, Some(outcome), size, behind, left) && |r| <= maxBody
    ensures ReadsOne(NextChunk(line, |r|, maxBody, []), r, Some(outcome), r, left)
  {
  }

  /** The chunk's data has been taken, or some of it is missing. */
  lemma OneChunk(line: Line, c: bytes, p: bytes, r: bytes, size: nat, behind: nat, additional: nat, room: nat,
                 maxBody: nat, arrivals: seq<nat>, error: Option<Error>, done: Option<Outcome>,
                 r': bytes, c': bytes, p': bytes)
    requires ReadsLine(line, None, size, behind, c + p) && behind + additional == |c| && arrivals == [additional]
    requires |r| + room == maxBody && (size + |r|) % ULONG_RANGE <= maxBody
    requires Gives(TakeChunk(c, p, additional, size, room), r, error, r', c', p')
    requires done == if error.Some? then Some(Failed(error.value)) else None
    ensures ReadsOne(NextChunk(line, |r|, maxBody, arrivals), r, done, r', c' + p')
    ensures done.None? ==> |c'| + |p'| <= |c| + |p|
  {
    var t := TakeChunk(c, p, additional, size, room);
    TakeLeavesLess(c, p, additional, size, room);
    TakenFrom(line, c, p, size, behind, additional, room, |r|, maxBody, arrivals);
    NextGiven(t, r, error, done, r', c', p');
  }

  lemma TakeLeavesLess(c: bytes, p: bytes, additional: nat, size: nat, room: nat)
    requires additional <= |c|
    ensures var t := TakeChunk(c, p, additional, size, room); t.Taken? ==> |t.c| + |t.p| <= |c| + |p|
  {
  }

  lemma TakenFrom(line: Line, c: bytes, p: bytes, size: nat, behind: nat, additional: nat, room: nat,
                  stored: nat, maxBody: nat, arrivals: seq<nat>)
    requires ReadsLine(line, None, size, behind, c + p) && behind + additional == |c| && arrivals == [additional]
    requires stored + room == maxBody && (size + stored) % ULONG_RANGE <= maxBody
    ensures NextChunk(line, stored, maxBody, arrivals) == NextAfter(TakeChunk(c, p, additional, size, room))
  {
    assert (c + p)[..|c|] == c && (c + p)[|c|..] == p;
  }

  lemma NextGiven(t: Taking, r: bytes, error: Option<Error>, done: Option<Outcome>, r': bytes, c': bytes, p': bytes)
    requires Gives(t, r, error, r', c', p') && done == if error.Some? then Some(Failed(error.value)) else None
    ensures ReadsOne(NextAfter(t), r, done, r', c' + p')
  {
  }

  /** Reads the chunks that are still to come and appends them to the request's streambuf. */
  method ReadChunked(socket: Socket, request: StreamBuf, chunk: StreamBuf) returns (outcome: Outcome, ghost arrivals: seq<nat>)
    requires request != chunk && request.buffer != chunk.buffer && request.Valid() && chunk.Valid()
    modifies socket, request, request.buffer, chunk, chunk.buffer
    ensures request.Valid() && chunk.Valid()
    ensures Reads(Decode(ReaderOf(chunk.maxSize, request.maxSize), old(chunk.Contents() + socket.pending), |old(request.Contents())|, arrivals),
                  old(request.Contents()), outcome, request.Contents(), chunk.Contents() + socket.pending)
    decreases |chunk.Contents()| + |socket.pending|
  {
    ghost var was, input := request.Contents(), chunk.Contents() + socket.pending;
    var done;
    done, arrivals := ReadChunk(socket, request, chunk);
    ghost var stored, left := request.Contents(), chunk.Contents() + socket.pending;
    if done.Some? {
      outcome := done.value;
      ReadAll(input, was, chunk.maxSize, request.maxSize, arrivals, outcome, stored, left);
    } else {
      ghost var others;
      outcome, others := ReadChunked(socket, request, chunk);
      ReadOneThenAll(input, was, chunk.maxSize, request.maxSize, arrivals, others, stored, left,
                     outcome, request.Contents(), chunk.Contents() + socket.pending);
      arrivals := arrivals + others;
    }
  }

  lemma ReadAll(input: bytes, was: bytes, maxLine: nat, maxBody: nat, arrivals: seq<nat>,
                outcome: Outcome, request: bytes, left: bytes)
    requires ReadsOne(NextChunk(LineOf(input, maxLine), |was|, maxBody, arrivals), was, Some(outcome), request, left)
    ensures Reads(Decode(ReaderOf(maxLine, maxBody), input, |was|, arrivals), was, outcome, request, left)
  {
    AllRead(ReaderOf(maxLine, maxBody), input, was, arrivals, outcome, request, left);
  }

  lemma ReadOneThenAll(input: bytes, was: bytes, maxLine: nat, maxBody: nat, arrivals: seq<nat>, others: seq<nat>,
                       stored: bytes, left: bytes, outcome: Outcome, request: bytes, left': bytes)
    requires |arrivals| <= 1
    requires ReadsOne(NextChunk(LineOf(input, maxLine), |was|, maxBody, arrivals), was, None, stored, left)
    requires Reads(Decode(ReaderOf(maxLine, maxBody), left, |stored|, others), stored, outcome, request, left')
    ensures Reads(Decode(ReaderOf(maxLine, maxBody), input, |was|, arrivals + others), was, outcome, request, left')
  {
    var line := LineOf(input, maxLine);
    FirstArrival(line, |was|, maxBody, arrivals, others);
    assert (arrivals + others)[1..] == others;
    OneReadThenAll(ReaderOf(maxLine, maxBody), input, was, NextChunk(line, |was|, maxBody, arrivals),
                   arrivals + others, others, stored, left, outcome, request, left');
  }

  /** What `read` does after the header of a chunked request: the octets that came along
      with the header move to the small streambuf, whose maximum size they may raise. */
  method ReadBody(socket: Socket, request: StreamBuf) returns (outcome: Outcome, chunk: StreamBuf, ghost arrivals: seq<nat>)
    requires request.Valid()
    modifies socket, request, request.buffer
    ensures request.Valid() && chunk.Valid() && fresh(chunk) && chunk.maxSize == Max(18, old(request.Size()))
    ensures Reads(Decode(ReaderOf(chunk.maxSize, request.maxSize), old(request.Contents() + socket.pending), 0, arrivals),
                  [], outcome, request.Contents(), chunk.Contents() + socket.pending)
  {
    ghost var arrived := request.Contents();
    chunk := new StreamBuf(Max(18, request.Size()));
    var moved := Move(request, chunk, request.Size());
    AllMoved(arrived);
    outcome, arrivals := ReadChunked(socket, request, chunk);
  }

  lemma AllMoved(s: bytes)
    ensures [] + s[..|s|] == s && s[|s|..] == []
  {
  }

  lemma AllRead(reader: Reader, input: bytes, was: bytes, arrivals: seq<nat>, outcome: Outcome, request: bytes, left: bytes)
    requires ReadsOne(reader(input, |was|, arrivals), was, Some(outcome), request, left)
    ensures Reads(Decode(reader, input, |was|, arrivals), was, outcome, request, left)
  {
  }

  /** Reading one chunk and then the others reads them all. */
  lemma OneReadThenAll(reader: Reader, input: bytes, was: bytes, next: Next, arrivals: seq<nat>, others: seq<nat>,
                       stored: bytes, left: bytes, outcome: Outcome, request: bytes, left': bytes)
    requires arrivals != [] && others == arrivals[1..] && next == reader(input, |was|, arrivals)
    requires ReadsOne(next, was, None, stored, left)
    requires Reads(Decode(reader, left, |stored|, others), stored, outcome, request, left')
    ensures Reads(Decode(reader, input, |was|, arrivals), was, outcome, request, left')
  {
    DecodeChunk(reader, input, |was|, next, arrivals);
    ReadsAfter(next.data, Decode(reader, left, |stored|, others), was, outcome, request, left');
  }

  lemma DecodeChunk(reader: Reader, input: bytes, stored: nat, next: Next, arrivals: seq<nat>)
    requires arrivals != [] && next == reader(input, stored, arrivals) && next.Chunk?
    ensures Decode(reader, input, stored, arrivals) ==
      After(next.data, Decode(reader, next.left, stored + |next.data|, arrivals[1..]))
  {
  }

  lemma ReadsAfter(data: bytes, others: Decoded, was: bytes, outcome: Outcome, request: bytes, left: bytes)
    requires Reads(others, was + data, outcome, request, left)
    ensures Reads(After(data, others), was, outcome, request, left)
  {
  }
}

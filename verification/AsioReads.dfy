/**
 The composed read operations on a `basic_streambuf`: `async_read_until` with a string
 delimiter (task-3a/framework/dep/asio/include/asio/impl/read_until.hpp) and `async_read`
 with `transfer_exactly` (task-3a/framework/dep/asio/include/asio/impl/read.hpp). One
 pass of a loop here is one completion of `async_read_some` there.
 */
module AsioReads {
  import opened Bytes
  import opened StreamBuffer

  /** A connection: the octets its peer still sends, in order, before it closes. They
      arrive in pieces of any size. */
  class Socket {
    var pending: bytes

    constructor (pending: bytes)
      ensures this.pending == pending
    {
      this.pending := pending;
    }

    /** `async_read_some` into `n` octets; false stands for end of file. */
    method ReadSome(n: nat) returns (ok: bool, data: bytes)
      modifies this
      ensures data + pending == old(pending) && |data| <= n
      ensures ok <==> n == 0 || old(pending) != []
      ensures data == [] <==> n == 0 || old(pending) == []
    {
      if n == 0 || pending == [] {
        return n == 0, [];
      }
      var k: nat :| 1 <= k <= n && k <= |pending|;
      ok, data, pending := true, pending[..k], pending[k..];
    }
  }

  // ----- searching

  /** `delim` does not start at `i`, whatever `data` is followed by. */
  ghost predicate Clashes(data: bytes, i: nat, delim: bytes) {
    exists k :: 0 <= k < |delim| && i + k < |data| && data[i + k] != delim[k]
  }

  predicate MatchesAt(data: bytes, i: nat, delim: bytes) {
    i + |delim| <= |data| && data[i..i + |delim|] == delim
  }

  /** The octets of `data` from `i` on, as far as there are any, agree with delim[..k]. */
  ghost predicate AgreesFor(data: bytes, i: nat, delim: bytes, k: nat) {
    k <= |delim| && i + k <= |data| && forall j :: 0 <= j < k ==> data[i + j] == delim[j]
  }

  /** The first position from `first` on where `delim` matches, or where the end of the data
      cuts a match short; otherwise the end of the data. */
  method PartialSearch(data: bytes, first: nat, delim: bytes) returns (pos: nat, full: bool)
    requires first <= |data| && delim != []
    ensures first <= pos <= |data|
    ensures forall i :: first <= i < pos ==> Clashes(data, i, delim)
    ensures full ==> MatchesAt(data, pos, delim)
    ensures !full ==> |data| < pos + |delim| && AgreesFor(data, pos, delim, |data| - pos)
  {
    var iter := first;
    while iter != |data|
      invariant first <= iter <= |data|
      invariant forall i :: first <= i < iter ==> Clashes(data, i, delim)
    {
      var k := 0;
      while true
        invariant AgreesFor(data, iter, delim, k)
        decreases |delim| - k
      {
        if k == |delim| {
          assert data[iter..iter + |delim|] == delim;
          return iter, true;
        }
        if iter + k == |data| {
          assert k != 0;
          return iter, false;
        }
        if data[iter + k] != delim[k] {
          break;
        }
        k := k + 1;
      }
      iter := iter + 1;
    }
    return |data|, false;
  }

  /** Where the first `delim` at or after `i` ends. */
  function FirstEnd(data: bytes, i: nat, delim: bytes): Option<nat>
    requires i <= |data|
    decreases |data| - i
  {
    if MatchesAt(data, i, delim) then Some(i + |delim|)
    else if i == |data| then None
    else FirstEnd(data, i + 1, delim)
  }

  lemma {:induction false} FirstEndMatches(data: bytes, i: nat, delim: bytes)
    requires i <= |data| && FirstEnd(data, i, delim).Some?
    ensures i + |delim| <= FirstEnd(data, i, delim).value
    ensures MatchesAt(data, FirstEnd(data, i, delim).value - |delim|, delim)
    decreases |data| - i
  {
    if !MatchesAt(data, i, delim) {
      FirstEndMatches(data, i + 1, delim);
    }
  }

  lemma {:induction false} FirstEndIs(data: bytes, i: nat, delim: bytes, pos: nat)
    requires i <= pos <= |data|
    requires forall j :: i <= j < pos ==> !MatchesAt(data, j, delim)
    ensures FirstEnd(data, i, delim) == FirstEnd(data, pos, delim)
    decreases pos - i
  {
    if i < pos {
      FirstEndIs(data, i + 1, delim, pos);
    }
  }

  /** The end is that of the first match, if and only if there is one. */
  lemma {:induction false} FirstEndIsFirst(data: bytes, i: nat, delim: bytes, pos: nat)
    requires i <= pos <= |data|
    ensures FirstEnd(data, i, delim) == Some(pos + |delim|)
       <==> MatchesAt(data, pos, delim) && forall j :: i <= j < pos ==> !MatchesAt(data, j, delim)
    decreases pos - i
  {
    if i < pos && !MatchesAt(data, i, delim) {
      FirstEndIsFirst(data, i + 1, delim, pos);
    } else if i == pos && FirstEnd(data, i, delim).Some? && !MatchesAt(data, i, delim) {
      FirstEndMatches(data, i + 1, delim);
    }
  }

  lemma {:induction false} NoRoomNoEnd(data: bytes, i: nat, delim: bytes)
    requires i <= |data| < i + |delim|
    ensures FirstEnd(data, i, delim) == None
    decreases |data| - i
  {
    if i < |data| {
      NoRoomNoEnd(data, i + 1, delim);
    }
  }

  lemma ClashNeverMatches(data: bytes, more: bytes, i: nat, delim: bytes)
    requires Clashes(data, i, delim)
    ensures !MatchesAt(data + more, i, delim) && Clashes(data + more, i, delim)
  {
  }

  // ----- async_read_until

  datatype ReadResult = Found(n: nat) | NotFound | EndOfFile

  /** How `async_read_until` ends, when the streambuf and the rest of the connection hold
      `input` together: this does not depend on what has arrived when. */
  function ReadUntilResult(input: bytes, max: nat, delim: bytes): ReadResult {
    var end := FirstEnd(input, 0, delim);
    if end.Some? && end.value <= max then Found(end.value)
    else if |input| >= max then NotFound
    else EndOfFile
  }

  /** A delimiter is found where it ends first, if that is within the maximum. */
  lemma FoundIffFirst(input: bytes, max: nat, delim: bytes, pos: nat)
    requires pos <= |input|
    ensures ReadUntilResult(input, max, delim) == Found(pos + |delim|)
       <==> pos + |delim| <= max && MatchesAt(input, pos, delim) && forall j :: 0 <= j < pos ==> !MatchesAt(input, j, delim)
  {
    FirstEndIsFirst(input, 0, delim, pos);
  }

  /** Without one, the streambuf has become full, or else the connection has ended. */
  lemma NotFoundIffFull(input: bytes, max: nat, delim: bytes)
    requires forall j :: 0 <= j && j + |delim| <= max && j <= |input| ==> !MatchesAt(input, j, delim)
    ensures ReadUntilResult(input, max, delim) == if |input| < max then EndOfFile else NotFound
  {
    if FirstEnd(input, 0, delim).Some? {
      FirstEndMatches(input, 0, delim);
    }
  }

  ghost predicate NoMatchBefore(data: bytes, pos: nat, delim: bytes) {
    pos <= |data| && forall i :: 0 <= i < pos ==> Clashes(data, i, delim)
  }

  lemma NoMatchBeforeExtends(data: bytes, more: bytes, pos: nat, delim: bytes)
    requires NoMatchBefore(data, pos, delim)
    ensures NoMatchBefore(data + more, pos, delim)
    ensures FirstEnd(data + more, 0, delim) == FirstEnd(data + more, pos, delim)
  {
    forall i | 0 <= i < pos
      ensures !MatchesAt(data + more, i, delim) && Clashes(data + more, i, delim)
    {
      ClashNeverMatches(data, more, i, delim);
    }
    FirstEndIs(data + more, 0, delim, pos);
  }

  lemma SearchFound(data: bytes, more: bytes, pos: nat, delim: bytes)
    requires NoMatchBefore(data, pos, delim) && MatchesAt(data, pos, delim)
    ensures FirstEnd(data + more, 0, delim) == Some(pos + |delim|)
  {
    NoMatchBeforeExtends(data, more, pos, delim);
    assert (data + more)[pos..pos + |delim|] == data[pos..pos + |delim|];
  }

  /** After an unsuccessful search the delimiter can only end in what is still to come. */
  lemma SearchFailed(data: bytes, more: bytes, pos: nat, delim: bytes)
    requires NoMatchBefore(data, pos, delim) && |data| < pos + |delim|
    ensures FirstEnd(data + more, 0, delim).Some? ==> FirstEnd(data + more, 0, delim).value > |data|
  {
    NoMatchBeforeExtends(data, more, pos, delim);
    if FirstEnd(data + more, pos, delim).Some? {
      FirstEndMatches(data + more, pos, delim);
    }
  }

  lemma ResultFound(data: bytes, more: bytes, max: nat, pos: nat, delim: bytes)
    requires NoMatchBefore(data, pos, delim) && MatchesAt(data, pos, delim) && |data| <= max
    ensures ReadUntilResult(data + more, max, delim) == Found(pos + |delim|)
  {
    SearchFound(data, more, pos, delim);
  }

  lemma ResultNotFound(data: bytes, more: bytes, max: nat, pos: nat, delim: bytes)
    requires NoMatchBefore(data, pos, delim) && |data| < pos + |delim| && |data| == max
    ensures ReadUntilResult(data + more, max, delim) == NotFound
  {
    SearchFailed(data, more, pos, delim);
  }

  lemma ResultEndOfFile(data: bytes, max: nat, pos: nat, delim: bytes)
    requires NoMatchBefore(data, pos, delim) && |data| < pos + |delim| && |data| < max
    ensures ReadUntilResult(data, max, delim) == EndOfFile
  {
    SearchFailed(data, [], pos, delim);
    assert data + [] == data;
    if FirstEnd(data, 0, delim).Some? {
      FirstEndMatches(data, 0, delim);
    }
  }

  /** The search starts each time where the last one left off, and still misses nothing. */
  method AsyncReadUntil(socket: Socket, sb: StreamBuf, delim: bytes) returns (result: ReadResult)
    requires sb.Valid() && delim != []
    modifies socket, sb, sb.buffer
    ensures sb.Valid() && (sb.buffer == old(sb.buffer) || fresh(sb.buffer))
    ensures sb.Contents() + socket.pending == old(sb.Contents() + socket.pending)
    ensures result == ReadUntilResult(old(sb.Contents() + socket.pending), sb.maxSize, delim)
    ensures result.Found? ==> result.n <= |sb.Contents()|
  {
    ghost var input, max := sb.Contents() + socket.pending, sb.maxSize;
    var searchPosition: nat, start := 0, true;
    while true
      invariant sb.Valid() && (sb.buffer == old(sb.buffer) || fresh(sb.buffer))
      invariant sb.Contents() + socket.pending == input
      invariant NoMatchBefore(sb.Contents(), searchPosition, delim)
      decreases |socket.pending|, start
    {
      var data := sb.Contents();
      var pos, full := PartialSearch(data, searchPosition, delim);
      ghost var more := socket.pending;
      var bytesToRead := 0;
      if full {
        result := Found(pos + |delim|);
        ResultFound(data, more, max, pos, delim);
      } else if sb.Size() == sb.maxSize {
        result := NotFound;
        ResultNotFound(data, more, max, pos, delim);
      } else {
        searchPosition := pos;
        result := EndOfFile;
        ResultEndOfFile(data, max, pos, delim);
        bytesToRead := sb.ReadSizeHelper(65536);
      }
      if !start && bytesToRead == 0 {
        return;
      }
      var ok, received := socket.ReadSome(bytesToRead);
      var prepared := sb.Receive(bytesToRead, received);
      Regroup(data, received, socket.pending);
      if received == [] {
        assert bytesToRead > 0 ==> data + more == data;
        return;
      }
      NoMatchBeforeExtends(data, received, searchPosition, delim);
      start := false;
    }
  }

  // ----- async_read with transfer_exactly

  /** One `async_read_some` into what was prepared, and the commit of what arrived. */
  method ReadPiece(socket: Socket, sb: StreamBuf, n: nat, ghost was: bytes, ghost pending: bytes, ghost total: nat)
    returns (ok: bool, transferred: nat)
    requires sb.Valid() && |sb.Contents()| + n <= sb.maxSize
    requires Transferred(was, pending, total, sb.Contents(), socket.pending)
    modifies socket, sb, sb.buffer
    ensures sb.Valid() && (sb.buffer == old(sb.buffer) || fresh(sb.buffer))
    ensures transferred <= n && |sb.Contents()| == old(|sb.Contents()|) + transferred
    ensures Transferred(was, pending, total + transferred, sb.Contents(), socket.pending)
    ensures ok <==> n == 0 || total < |pending|
    ensures transferred == 0 <==> n == 0 || total == |pending|
  {
    ghost var contents := sb.Contents();
    var received;
    ok, received := socket.ReadSome(n);
    transferred := |received|;
    var prepared := sb.Receive(n, received);
    TransferredMore(was, pending, total, contents, received, socket.pending);
  }

  /** How much to read next when `n` more octets are wanted. */
  method ReadSize(sb: StreamBuf, n: nat) returns (available: nat)
    requires sb.Valid()
    ensures available <= n && |sb.Contents()| + available <= sb.maxSize
    ensures available == 0 <==> n == 0 || |sb.Contents()| == sb.maxSize
  {
    available := sb.ReadSizeHelper(Min(n, 65536));
  }

  /** Reads until `n` octets were transferred or the streambuf is full; false stands for
      end of file. */
  method AsyncReadExactly(socket: Socket, sb: StreamBuf, n: nat) returns (ok: bool)
    requires sb.Valid()
    modifies socket, sb, sb.buffer
    ensures sb.Valid() && (sb.buffer == old(sb.buffer) || fresh(sb.buffer))
    ensures ok <==> Min(n, sb.maxSize - |old(sb.Contents())|) <= |old(socket.pending)|
    ensures ok ==> Transferred(old(sb.Contents()), old(socket.pending), Min(n, sb.maxSize - |old(sb.Contents())|),
                               sb.Contents(), socket.pending)
    ensures !ok ==> Transferred(old(sb.Contents()), old(socket.pending), |old(socket.pending)|,
                                sb.Contents(), socket.pending)
  {
    ghost var was, pending := sb.Contents(), socket.pending;
    ghost var goal: nat := Min(n, sb.maxSize - |was|);
    var total: nat, done := 0, false;
    var available := ReadSize(sb, n);
    ok := true;
    while !done
      invariant sb.Valid() && (sb.buffer == old(sb.buffer) || fresh(sb.buffer))
      invariant Transferred(was, pending, total, sb.Contents(), socket.pending)
      invariant Transferring(total, available, ok, done, goal, |pending|)
      decreases !done, |pending| - total
    {
      var transferred;
      ok, transferred := ReadPiece(socket, sb, available, was, pending, total);
      total := total + transferred;
      available := ReadSize(sb, if !ok then 0 else n - total);
      done := (ok && transferred == 0) || available == 0;
    }
  }

  /** `available` octets are to be read next, on the way to `goal` out of `all`. */
  ghost predicate Transferring(total: nat, available: nat, ok: bool, done: bool, goal: nat, all: nat) {
    && total + available <= goal && (ok && available == 0 ==> total == goal)
    && (if done then ok == (goal <= all) && total == (if ok then goal else all) else ok)
  }

  /** `total` octets have moved from the connection to the streambuf. */
  ghost predicate Transferred(was: bytes, pending: bytes, total: nat, contents: bytes, left: bytes) {
    total <= |pending| && contents == was + pending[..total] && left == pending[total..]
  }

  lemma TransferredMore(was: bytes, pending: bytes, total: nat, contents: bytes, received: bytes, left: bytes)
    requires total <= |pending| && Transferred(was, pending, total, contents, received + left)
    ensures Transferred(was, pending, total + |received|, contents + received, left)
  {
  }
}

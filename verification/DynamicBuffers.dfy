/**
 `dynamic_vector_buffer` and `dynamic_string_buffer` with their DynamicBuffer_v1
 operations (task-3a/framework/dep/asio/include/asio/buffer.hpp), and their equivalence
 with `basic_streambuf` for clients that prepare before they commit and write only into
 valid buffers.
 */
module DynamicBuffers {
  import opened Bytes
  import opened StreamBuffer

  /** The two class templates differ only in `consume` before the first `prepare`. */
  datatype Kind = VectorBuffer | StringBuffer

  class DynamicBuffer {
    const kind: Kind
    const maxSize: nat
    var storage: bytes       // the vector or string the buffer refers to
    var size: Option<nat>    // None is the sentinel value before the first `prepare`

    ghost predicate Valid()
      reads this
    {
      size.Some? ==> size.value <= |storage|
    }

    constructor (kind: Kind, storage: bytes, maximumSize: nat)
      ensures Valid() && this.kind == kind && maxSize == maximumSize
      ensures this.storage == storage && size == None
    {
      this.kind, this.storage, maxSize, size := kind, storage, maximumSize, None;
    }

    function Size(): (n: nat)
      reads this
      ensures size.None? ==> n <= |storage| && n <= maxSize && (n == |storage| || n == maxSize)
    {
      if size.Some? then size.value else Min(|storage|, maxSize)
    }

    /** `data()`: the input sequence. */
    function Contents(): bytes
      requires Valid()
      reads this
    {
      if size.Some? then storage[..size.value] else storage
    }

    function Output(): bytes
      requires Valid()
      reads this
    {
      if size.Some? then storage[size.value..] else []
    }

    /** False stands for length_error, which leaves the buffer as it was. */
    method Prepare(n: nat) returns (ok: bool)
      requires Valid()
      modifies this
      ensures Valid()
      ensures ok <==> old(Size()) <= maxSize && n <= maxSize - old(Size())
      ensures ok ==> size.Some? && Contents() == old(Contents()) && |Output()| == n
      ensures !ok ==> storage == old(storage) && size == old(size)
    {
      if Size() > maxSize || maxSize - Size() < n {
        return false;
      }
      if size.None? {
        size := Some(|storage|);
      }
      storage := Resize(storage, size.value + n);
      return true;
    }

    /** The client writes into the buffers that `prepare` has returned, which is right here
        only as long as they are valid. */
    method Fill(data: bytes)
      requires Valid() && size.Some? && |data| <= |Output()|
      modifies this`storage
      ensures Valid() && Contents() == old(Contents()) && Output() == data + old(Output())[|data|..]
    {
      storage := storage[..size.value] + data + storage[size.value + |data|..];
    }

    /** Requires a preceding `prepare`. What is not committed is discarded. */
    method Commit(n: nat)
      requires Valid() && size.Some?
      modifies this
      ensures Valid() && size.Some? && Output() == []
      ensures Contents() == old(Contents()) + old(Output())[..Min(n, |old(Output())|)]
    {
      size := Some(size.value + Min(n, |storage| - size.value));
      storage := storage[..size.value];
    }

    method Consume(n: nat)
      requires Valid()
      modifies this
      ensures Valid() && (size.Some? <==> old(size).Some?)
      ensures old(size).None? ==> storage == old(storage)[Dropped(kind, |old(storage)|, maxSize, n)..]
      ensures old(size).Some? ==> Contents() == old(Contents())[Min(n, old(Size()))..] && Output() == old(Output())
    {
      if size.Some? {
        var k := Min(n, size.value);
        storage := storage[k..];
        size := Some(size.value - k);
      } else if kind.VectorBuffer? {
        storage := storage[Min(Size(), n)..];
      } else {
        storage := storage[Min(|storage|, n)..];
      }
    }
  }

  /** `vector::resize` and `string::resize`. */
  function Resize(storage: bytes, n: nat): (r: bytes)
    ensures |r| == n
    ensures r[..Min(n, |storage|)] == storage[..Min(n, |storage|)]
  {
    if n <= |storage| then storage[..n] else storage + seq(n - |storage|, _ => 0)
  }

  /** How many octets `consume` drops from the front before the first `prepare`: a string
      drops as many as there are, a vector no more than its maximum size. */
  function Dropped(kind: Kind, length: nat, max: nat, n: nat): (k: nat)
    ensures k <= length && k <= n && (kind.VectorBuffer? ==> k <= max)
    ensures k < length && k < n ==> kind.VectorBuffer? && k == max
  {
    if kind.VectorBuffer? then Min(Min(length, max), n) else Min(length, n)
  }

  function AfterUnpreparedConsume(kind: Kind, storage: bytes, max: nat, n: nat): bytes {
    storage[Dropped(kind, |storage|, max, n)..]
  }

  /** Consuming before the first `prepare`, the string buffer can reach past the maximum
      size where the vector buffer cannot; otherwise they agree. */
  lemma UnpreparedConsumeAgrees(storage: bytes, max: nat, n: nat)
    ensures AfterUnpreparedConsume(VectorBuffer, storage, max, n) == AfterUnpreparedConsume(StringBuffer, storage, max, n)
       <==> |storage| <= max || n <= max
  {
  }

  // ----- equivalence with basic_streambuf

  datatype ClientOp =
    | Prepare(n: nat)
    | Fill(data: bytes)   // the client writes into the prepared buffers
    | Commit(n: nat)
    | Consume(n: nat)

  /** What a client can rely on: the input sequence, the room prepared since the last commit
      if any, whether the buffers that `prepare` has returned are still valid, and what was
      written into them. */
  datatype Served = Served(contents: bytes, room: Option<nat>, writable: bool, written: bytes)

  /** A client prepares before it commits, and commits no more than it has written. It does
      not write into buffers that another operation has made invalid: `consume` moves the
      octets of a vector or string, and so what the buffers ought to refer to. */
  predicate Allowed(s: Served, op: ClientOp) {
    match op
    case Prepare(_) => true
    case Fill(data) => s.writable && s.room.Some? && |data| <= s.room.value
    case Commit(n) => s.room.Some? && n <= |s.written|
    case Consume(_) => true
  }

  /** None stands for a `prepare` that is rejected. */
  function Serve(max: nat, s: Served, op: ClientOp): Option<Served>
    requires Allowed(s, op)
  {
    match op
    case Prepare(n) => if |s.contents| + n <= max then Some(Served(s.contents, Some(n), true, [])) else None
    case Fill(data) => Some(s.(written := data + s.written[Min(|data|, |s.written|)..]))
    case Commit(n) => Some(Served(s.contents + s.written[..n], None, false, []))
    case Consume(n) => Some(s.(contents := s.contents[Min(n, |s.contents|)..], writable := false))
  }

  /** What a buffer that started empty serves after the operations; None once a `prepare`
      has been rejected, or if the client broke its rules. */
  ghost function Serving(max: nat, ops: seq<ClientOp>): Option<Served> {
    if ops == [] then Some(Served([], None, false, []))
    else
      match Serving(max, ops[..|ops| - 1])
      case None => None
      case Some(s) => if Allowed(s, ops[|ops| - 1]) then Serve(max, s, ops[|ops| - 1]) else None
  }

  /** The client keeps its rules up to the first rejection. */
  ghost predicate Disciplined(max: nat, ops: seq<ClientOp>) {
    forall i :: 0 <= i < |ops| && Serving(max, ops[..i]).Some? ==> Allowed(Serving(max, ops[..i]).value, ops[i])
  }

  lemma ServingNext(max: nat, ops: seq<ClientOp>, i: nat)
    requires i < |ops| && Disciplined(max, ops) && Serving(max, ops[..i]).Some?
    ensures Allowed(Serving(max, ops[..i]).value, ops[i])
    ensures Serving(max, ops[..i + 1]) == Serve(max, Serving(max, ops[..i]).value, ops[i])
  {
    assert ops[..i + 1][..i] == ops[..i] && ops[..i + 1][i] == ops[i];
  }

  lemma {:induction false} RejectedForever(max: nat, ops: seq<ClientOp>, i: nat)
    requires i <= |ops| && Serving(max, ops[..i]) == None
    ensures Serving(max, ops) == None
    decreases |ops| - i
  {
    if i < |ops| {
      assert ops[..i + 1][..i] == ops[..i];
      RejectedForever(max, ops, i + 1);
    } else {
      assert ops[..i] == ops;
    }
  }

  /** A buffer with this input and output sequence serves `s`. */
  ghost predicate Shows(s: Served, contents: bytes, output: bytes) {
    && contents == s.contents
    && |s.written| <= (if s.room.Some? then s.room.value else 0) <= |output|
    && output[..|s.written|] == s.written
  }

  lemma FilledShows(max: nat, s: Served, data: bytes, contents: bytes, output: bytes)
    requires Shows(s, contents, output) && Allowed(s, ClientOp.Fill(data))
    ensures Shows(Serve(max, s, ClientOp.Fill(data)).value, contents, data + output[|data|..])
  {
    if |data| < |s.written| {
      assert output[|data|..|s.written|] == s.written[|data|..];
    }
  }

  lemma CommittedShows(max: nat, s: Served, n: nat, contents: bytes, output: bytes, rest: bytes)
    requires Shows(s, contents, output) && Allowed(s, ClientOp.Commit(n))
    ensures n <= |output| && Shows(Serve(max, s, ClientOp.Commit(n)).value, contents + output[..n], rest)
  {
    assert output[..n] == s.written[..n];
  }

  /** One operation on a streambuf. */
  method ServeOneFromStreamBuf(sb: StreamBuf, ghost s: Served, op: ClientOp) returns (ok: bool)
    requires sb.Valid() && Shows(s, sb.Contents(), sb.Output()) && Allowed(s, op)
    modifies sb, sb.buffer
    ensures sb.Valid() && (sb.buffer == old(sb.buffer) || fresh(sb.buffer))
    ensures ok <==> Serve(sb.maxSize, s, op).Some?
    ensures ok ==> Shows(Serve(sb.maxSize, s, op).value, sb.Contents(), sb.Output())
  {
    ghost var contents, output := sb.Contents(), sb.Output();
    ok := true;
    match op {
      case Prepare(n) =>
        ok := sb.Prepare(n);
      case Fill(data) =>
        sb.Fill(data);
        FilledShows(sb.maxSize, s, data, contents, output);
      case Commit(n) =>
        sb.Commit(n);
        CommittedShows(sb.maxSize, s, n, contents, output, sb.Output());
      case Consume(n) =>
        sb.Consume(n);
    }
  }

  /** One operation on a dynamic buffer that has nothing in it before the first `prepare`. */
  method ServeOneFromDynamicBuffer(db: DynamicBuffer, ghost s: Served, op: ClientOp) returns (ok: bool)
    requires db.Valid() && Shows(s, db.Contents(), db.Output()) && Allowed(s, op)
    requires db.size.None? ==> db.storage == [] && s.room.None?
    modifies db
    ensures db.Valid()
    ensures ok <==> Serve(db.maxSize, s, op).Some?
    ensures ok ==> Shows(Serve(db.maxSize, s, op).value, db.Contents(), db.Output())
    ensures ok && db.size.None? ==> db.storage == [] && Serve(db.maxSize, s, op).value.room.None?
  {
    ghost var contents, output := db.Contents(), db.Output();
    ok := true;
    match op {
      case Prepare(n) =>
        ok := db.Prepare(n);
      case Fill(data) =>
        db.Fill(data);
        FilledShows(db.maxSize, s, data, contents, output);
      case Commit(n) =>
        db.Commit(n);
        CommittedShows(db.maxSize, s, n, contents, output, db.Output());
      case Consume(n) =>
        db.Consume(n);
    }
  }

  /** What `Serving` says is shown. */
  ghost predicate Reports(served: Option<Served>, result: Option<bytes>, size: nat) {
    match served
    case None => result == None
    case Some(s) => result == Some(s.contents) && size == |s.contents|
  }

  method ServeFromStreamBuf(max: nat, ops: seq<ClientOp>) returns (result: Option<bytes>, size: nat)
    requires Disciplined(max, ops)
    ensures Reports(Serving(max, ops), result, size)
  {
    var sb := new StreamBuf(max);
    for i := 0 to |ops|
      invariant sb.Valid() && fresh(sb) && fresh(sb.buffer) && sb.maxSize == max
      invariant Serving(max, ops[..i]).Some?
      invariant Shows(Serving(max, ops[..i]).value, sb.Contents(), sb.Output())
    {
      ServingNext(max, ops, i);
      var ok := ServeOneFromStreamBuf(sb, Serving(max, ops[..i]).value, ops[i]);
      if !ok {
        RejectedForever(max, ops, i + 1);
        return None, 0;
      }
    }
    assert ops[..|ops|] == ops;
    return Some(sb.Contents()), sb.Size();
  }

  /** A dynamic buffer over an empty vector or string shows the same input sequence and
      rejects the same `prepare` as a streambuf, to every client that keeps the rules. */
  method ServeFromDynamicBuffer(kind: Kind, max: nat, ops: seq<ClientOp>) returns (result: Option<bytes>, size: nat)
    requires Disciplined(max, ops)
    ensures Reports(Serving(max, ops), result, size)
  {
    var db := new DynamicBuffer(kind, [], max);
    for i := 0 to |ops|
      invariant db.Valid() && fresh(db) && db.maxSize == max && db.kind == kind
      invariant Serving(max, ops[..i]).Some?
      invariant Shows(Serving(max, ops[..i]).value, db.Contents(), db.Output())
      invariant db.size.None? ==> db.storage == [] && Serving(max, ops[..i]).value.room.None?
    {
      ServingNext(max, ops, i);
      var ok := ServeOneFromDynamicBuffer(db, Serving(max, ops[..i]).value, ops[i]);
      if !ok {
        RejectedForever(max, ops, i + 1);
        return None, 0;
      }
    }
    assert ops[..|ops|] == ops;
    return Some(db.Contents()), db.Size();
  }
}

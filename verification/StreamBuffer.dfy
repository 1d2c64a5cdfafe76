/**
 `basic_streambuf` (task-3a/framework/dep/asio/include/asio/basic_streambuf.hpp): a
 window of octets that slides over a growable array. Pointers are offsets into `buffer`;
 a resized vector is a new array.
 */
module StreamBuffer {
  import opened Bytes

  const BUFFER_DELTA: nat := 128

  /** What is left of contents `c` that began at offset `shift` of the array after they
      were moved to its front while the pointers stayed behind. */
  function Torn(c: bytes, shift: nat): (t: bytes)
    ensures |t| == |c|
  {
    seq(|c|, i requires 0 <= i < |c| => if shift + i < |c| then c[shift + i] else c[i])
  }

  /** `c` repeats with distance `shift`. */
  ghost predicate Periodic(c: bytes, shift: nat) {
    forall i :: 0 <= i && shift + i < |c| ==> c[i] == c[shift + i]
  }

  /** What was moved is intact exactly when it repeats with the distance of the move. */
  lemma TornIffNotPeriodic(c: bytes, shift: nat)
    ensures Torn(c, shift) == c <==> Periodic(c, shift)
  {
  }

  /** Moving the boundary between the two sequences up commits octets. */
  lemma BoundaryMoves(s: bytes, lo: nat, mid: nat, hi: nat, n: nat, k: nat, max: nat)
    requires lo <= mid <= hi <= |s| && hi <= max && k == Min(n, hi - mid)
    ensures FifoStep(Op.Commit(n), Fifo(max, s[lo..mid], s[mid..hi]), Fifo(max, s[lo..mid + k], s[mid + k..hi]))
  {
    assert s[lo..mid + k] == s[lo..mid] + s[mid..hi][..k];
    assert s[mid + k..hi] == s[mid..hi][k..];
  }

  /** Moving the front of the input sequence up consumes octets. */
  lemma ConsumeFront(lo: nat, mid: nat, hi: nat, max: nat, s: bytes, n: nat, k: nat)
    requires lo <= mid <= hi <= |s| && hi <= max && k == Min(n, mid - lo)
    ensures FifoStep(Op.Consume(n), Fifo(max, s[lo..mid], s[mid..hi]), Fifo(max, s[lo + k..mid], s[mid..hi]))
  {
    assert s[lo + k..mid] == s[lo..mid][k..];
  }

  /** At least 512 octets and whatever capacity is unused, but no more than is asked for or
      than there may be. */
  function Preferred(capacity: nat, size: nat, maxRead: nat, maxSize: nat): int {
    Min(Max(512, capacity - size), Min(maxRead, maxSize - size))
  }

  class StreamBuf {
    const maxSize: nat
    var buffer: array<byte>
    var gptr: nat
    var egptr: nat
    var pptr: nat
    var epptr: nat

    ghost predicate Valid()
      reads this
    {
      && gptr <= egptr <= pptr <= epptr <= maxSize
      && buffer.Length == Max(epptr, 1)
    }

    /** `data()`: the input sequence. */
    function Contents(): (c: bytes)
      requires Valid()
      reads this, buffer
      ensures |c| == pptr - gptr
    {
      buffer[gptr..pptr]
    }

    /** The output sequence. */
    function Output(): (o: bytes)
      requires Valid()
      reads this, buffer
      ensures |o| == epptr - pptr
    {
      buffer[pptr..epptr]
    }

    function Size(): nat
      requires Valid()
      reads this
    {
      pptr - gptr
    }

    constructor (maximumSize: nat)
      ensures Valid() && fresh(buffer) && maxSize == maximumSize
      ensures Contents() == [] && gptr == 0
      ensures |Output()| == if maximumSize < 128 then maximumSize else 128
    {
      maxSize := maximumSize;
      var pend := Min(maximumSize, BUFFER_DELTA);
      buffer := new byte[Max(pend, 1)];
      gptr, egptr, pptr, epptr := 0, 0, 0, pend;
    }

    ghost function Abs(): Fifo
      requires Valid()
      reads this, buffer
    {
      Fifo(maxSize, Contents(), Output())
    }

    /** `memmove` of the input sequence to the front of the array; no pointer changes. */
    method MoveToFront()
      requires Valid()
      modifies buffer
      ensures buffer[..pptr - gptr] == old(Contents())
      ensures Contents() == Torn(old(Contents()), gptr)
    {
      ghost var contents := Contents();
      forall i | 0 <= i < pptr - gptr {
        buffer[i] := buffer[gptr + i];
      }
      assert forall i :: 0 <= i < |contents| ==> buffer[i] == contents[i];
      forall i | 0 <= i < |contents|
        ensures Contents()[i] == Torn(contents, gptr)[i]
      {
        assert Contents()[i] == buffer[gptr + i];
      }
    }

    /** `buffer_.resize(n)`, always to a larger size here. */
    method Grow(n: nat)
      requires buffer.Length <= n
      modifies this`buffer
      ensures fresh(buffer) && buffer.Length == n && buffer[..old(buffer.Length)] == old(buffer[..])
    {
      var was := buffer;
      buffer := new byte[n](i requires 0 <= i reads was => if i < was.Length then was[i] else 0);
    }

    /** Makes room for `n` octets in the output sequence; false stands for length_error. */
    method Reserve(n: nat) returns (ok: bool)
      requires Valid()
      modifies this, buffer
      ensures Valid() && (buffer == old(buffer) || fresh(buffer))
      ensures ok <==> old(Size()) + n <= maxSize
      ensures ok ==> Contents() == old(Contents()) && n <= |Output()|
      ensures ok ==> gptr == old(gptr) || gptr == 0
      ensures ok && n <= old(epptr) - old(pptr) ==> gptr == old(gptr) && epptr == old(epptr) && buffer == old(buffer)
      ensures ok && n > old(epptr) - old(pptr) ==> gptr == 0 && epptr == Max(old(epptr), old(Size()) + n)
      ensures !ok ==> gptr == old(gptr) && egptr == old(egptr) && pptr == old(pptr) && epptr == old(epptr)
      ensures !ok ==> Contents() == Torn(old(Contents()), old(gptr))
      ensures !ok && gptr == 0 ==> Contents() == old(Contents())
    {
      var gnext, pnext, pend := gptr, pptr, epptr;
      if n <= pend - pnext {
        return true;
      }
      ghost var c := Contents();
      if gnext > 0 {
        pnext := pnext - gnext;
        MoveToFront();
      }
      assert buffer[..pnext] == c;
      if n > pend - pnext {
        if n <= maxSize && pnext <= maxSize - n {
          pend := pnext + n;
          Grow(Max(pend, 1));
        } else {
          return false;
        }
      }
      gptr, egptr := 0, pnext;
      pptr, epptr := pnext, pend;
      return true;
    }

    /** On success the first `n` octets of Output() are the buffers returned. */
    method Prepare(n: nat) returns (ok: bool)
      requires Valid()
      modifies this, buffer
      ensures Valid() && (buffer == old(buffer) || fresh(buffer))
      ensures ok <==> old(Size()) + n <= maxSize
      ensures ok ==> FifoStep(Op.Prepare(n), old(Abs()), Abs()) && (gptr == old(gptr) || gptr == 0)
      ensures !ok ==> gptr == old(gptr) && egptr == old(egptr) && pptr == old(pptr) && epptr == old(epptr)
      ensures !ok ==> Contents() == Torn(old(Contents()), old(gptr))
      ensures Contents() == old(Contents()) <==> ok || Periodic(old(Contents()), old(gptr))
    {
      TornIffNotPeriodic(Contents(), gptr);
      ok := Reserve(n);
    }

    /** What the caller of `prepare` does with the buffers it was given. */
    method Fill(data: bytes)
      requires Valid() && |data| <= |Output()|
      modifies buffer
      ensures Valid() && FifoStep(Op.Fill(data), old(Abs()), Abs())
    {
      forall i | 0 <= i < |data| {
        buffer[pptr + i] := data[i];
      }
    }

    method Commit(n: nat)
      requires Valid()
      modifies this
      ensures Valid() && buffer == old(buffer) && gptr == old(gptr)
      ensures FifoStep(Op.Commit(n), old(Abs()), Abs())
    {
      var k: nat := Min(n, epptr - pptr);
      ghost var s, before := buffer[..], pptr;
      BoundaryMoves(s, gptr, before, epptr, n, k, maxSize);
      pptr := pptr + k;
      egptr := pptr;
      assert Contents() == s[gptr..pptr];
    }

    /** How every read operation of the library uses the class: room for `n` octets is
        prepared, some of it is filled by the socket, and what was filled is committed. */
    method Receive(n: nat, data: bytes) returns (ok: bool)
      requires Valid() && |data| <= n
      modifies this, buffer
      ensures Valid() && (buffer == old(buffer) || fresh(buffer))
      ensures ok <==> old(Size()) + n <= maxSize
      ensures ok ==> Contents() == old(Contents()) + data && (gptr == old(gptr) || gptr == 0)
    {
      ok := Prepare(n);
      if ok {
        Fill(data);
        ghost var contents, output := Contents(), Output();
        assert output[..|data|] == data;
        Commit(|data|);
      }
    }

    method Consume(n: nat)
      requires Valid()
      modifies this
      ensures Valid() && buffer == old(buffer) && gptr == old(gptr) + Min(n, old(Size()))
      ensures FifoStep(Op.Consume(n), old(Abs()), Abs())
    {
      if egptr < pptr {
        egptr := pptr;
      }
      var k := n;
      if gptr + n > pptr {
        k := pptr - gptr;
      }
      ghost var s, before := buffer[..], gptr;
      ConsumeFront(before, pptr, epptr, maxSize, s, n, k);
      gptr := gptr + k;
      assert Contents() == s[gptr..pptr];
    }

    /** Shows the next octet without removing it; None stands for eof. */
    method Underflow() returns (c: Option<byte>)
      requires Valid()
      modifies this
      ensures Valid() && buffer == old(buffer) && Abs() == old(Abs())
      ensures c == (if Contents() == [] then None else Some(Contents()[0]))
      ensures c.Some? ==> gptr < egptr
    {
      if gptr < pptr {
        egptr := pptr;
        return Some(buffer[gptr]);
      } else {
        return None;
      }
    }

    /** `std::streambuf::sbumpc`, which calls `underflow` when the get area is used up. */
    method Bump() returns (c: Option<byte>)
      requires Valid()
      modifies this
      ensures Valid() && buffer == old(buffer)
      ensures c == (if old(Contents()) == [] then None else Some(old(Contents())[0]))
      ensures FifoStep(Op.Consume(1), old(Abs()), Abs())
    {
      if gptr < egptr {
        c := Some(buffer[gptr]);
        gptr := gptr + 1;
      } else {
        c := Underflow();
        if c.Some? {
          gptr := gptr + 1;
        }
      }
    }

    /** The part of `overflow` that looks for room when the put area is full. */
    method MakeRoomForOne() returns (ok: bool)
      requires Valid() && pptr == epptr
      modifies this, buffer
      ensures Valid() && (buffer == old(buffer) || fresh(buffer))
      ensures ok <==> old(Size()) < maxSize
      ensures Contents() == old(Contents())
      ensures ok ==> pptr < epptr && |Output()| >= Min(128, maxSize - old(Size()))
    {
      var bufferSize := pptr - gptr;
      if bufferSize < maxSize && maxSize - bufferSize < BUFFER_DELTA {
        ok := Reserve(maxSize - bufferSize);
      } else {
        ok := Reserve(BUFFER_DELTA);
      }
    }

    method Append(c: byte)
      requires Valid() && pptr < epptr
      modifies this, buffer
      ensures Valid() && buffer == old(buffer) && Contents() == old(Contents()) + [c]
    {
      buffer[pptr] := c;
      pptr := pptr + 1;
    }

    /** Appends an octet; None stands for eof, which is ignored. A failure, unlike that of
        `prepare`, leaves the contents alone. */
    method Overflow(c: Option<byte>) returns (ok: bool)
      requires Valid()
      modifies this, buffer
      ensures Valid() && (buffer == old(buffer) || fresh(buffer))
      ensures ok <==> c == None || old(Size()) < maxSize
      ensures ok ==> FifoStep(Op.Put(c), old(Abs()), Abs())
      ensures !ok ==> Contents() == old(Contents())
    {
      if c.Some? {
        if pptr == epptr {
          ok := MakeRoomForOne();
          if !ok {
            return;
          }
        }
        Append(c.value);
      }
      return true;
    }

    /** The vector's capacity, which is never below its size. */
    method Capacity() returns (capacity: nat)
      requires Valid()
      ensures capacity >= buffer.Length
    {
      capacity :| capacity >= buffer.Length;
    }

    /** The preferred size of a read of at most `maxRead` octets: it can always be prepared. */
    method ReadSizeHelper(maxRead: nat) returns (n: nat)
      requires Valid()
      ensures n <= maxRead && Size() + n <= maxSize
      ensures n == 0 <==> maxRead == 0 || Size() == maxSize
      ensures n < 512 ==> n == maxRead || n == maxSize - Size()
      ensures exists capacity: nat :: capacity >= buffer.Length && n == Preferred(capacity, Size(), maxRead, maxSize)
    {
      var capacity := Capacity();
      n := Min(Max(512, capacity - Size()), Min(maxRead, maxSize - Size()));
      assert n == Preferred(capacity, Size(), maxRead, maxSize);
    }
  }

  /** A run in which a `prepare` that throws changes the input sequence. */
  method FailedPrepareDamages() returns (before: bytes, ok: bool, after: bytes)
    ensures before == [1, 2] && !ok && after == [2, 2]
  {
    var sb := new StreamBuf(4);
    ok := sb.Receive(3, [0, 1, 2]);
    sb.Consume(1);
    before := sb.Contents();
    ok := sb.Prepare(3);
    after := sb.Contents();
    TornTwo(before, after);
  }

  lemma TornTwo(before: bytes, after: bytes)
    requires before == ([] + [0, 1, 2])[1..] && after == Torn(before, 1)
    ensures before == [1, 2] && after == [2, 2]
  {
  }

  // ----- the queue of octets that the class refines

  /** The input sequence, and the output sequence behind it. */
  datatype Fifo = Fifo(max: nat, contents: bytes, output: bytes)

  datatype Op =
    | Prepare(n: nat)
    | Fill(data: bytes)
    | Commit(n: nat)
    | Consume(n: nat)
    | Put(c: Option<byte>)

  /** What an operation that does not throw may do. */
  ghost predicate FifoStep(op: Op, s: Fifo, t: Fifo) {
    && t.max == s.max
    && |t.contents| + |t.output| <= t.max
    && match op
       case Prepare(n) => t.contents == s.contents && n <= |t.output|
       case Fill(data) =>
         t.contents == s.contents && |data| <= |s.output| && t.output == data + s.output[|data|..]
       case Commit(n) =>
         var k := Min(n, |s.output|);
         t.contents == s.contents + s.output[..k] && t.output == s.output[k..]
       case Consume(n) =>
         t.contents == s.contents[Min(n, |s.contents|)..] && t.output == s.output
       case Put(c) =>
         t.contents == s.contents + (if c.Some? then [c.value] else [])
  }

  /** The octets an operation adds to the input sequence. */
  ghost function Produced(op: Op, s: Fifo): bytes {
    match op
    case Commit(n) => s.output[..Min(n, |s.output|)]
    case Put(c) => if c.Some? then [c.value] else []
    case _ => []
  }

  /** The octets an operation removes from the input sequence. */
  ghost function Consumed(op: Op, s: Fifo): bytes {
    if op.Consume? then s.contents[..Min(op.n, |s.contents|)] else []
  }

  ghost predicate IsRun(states: seq<Fifo>, ops: seq<Op>) {
    && |states| == |ops| + 1
    && forall i :: 0 <= i < |ops| ==> StepAt(states, ops, i)
  }

  ghost predicate StepAt(states: seq<Fifo>, ops: seq<Op>, i: nat)
    requires i < |ops| && |states| == |ops| + 1
  {
    FifoStep(ops[i], states[i], states[i + 1])
  }

  /** Everything produced by the first `n` operations of a run. */
  ghost function AllProduced(states: seq<Fifo>, ops: seq<Op>, n: nat): bytes
    requires IsRun(states, ops) && n <= |ops|
  {
    if n == 0 then [] else AllProduced(states, ops, n - 1) + Produced(ops[n - 1], states[n - 1])
  }

  ghost function AllConsumed(states: seq<Fifo>, ops: seq<Op>, n: nat): bytes
    requires IsRun(states, ops) && n <= |ops|
  {
    if n == 0 then [] else AllConsumed(states, ops, n - 1) + Consumed(ops[n - 1], states[n - 1])
  }

  lemma StepConserves(op: Op, s: Fifo, t: Fifo, start: bytes, produced: bytes, consumed: bytes)
    requires FifoStep(op, s, t) && start + produced == consumed + s.contents
    ensures start + (produced + Produced(op, s)) == consumed + Consumed(op, s) + t.contents
  {
    assert s.contents + Produced(op, s) == Consumed(op, s) + t.contents;
    Regroup(start, produced, Produced(op, s));
    Regroup(consumed, s.contents, Produced(op, s));
    Regroup(consumed, Consumed(op, s), t.contents);
  }

  /** At every point of any run: everything that ever entered is everything that left, in
      order, followed by what is there now. */
  lemma {:induction false} RunConserves(states: seq<Fifo>, ops: seq<Op>, n: nat)
    requires IsRun(states, ops) && n <= |ops|
    ensures states[0].contents + AllProduced(states, ops, n) == AllConsumed(states, ops, n) + states[n].contents
  {
    if n == 0 {
      assert states[0].contents + [] == [] + states[0].contents;
    } else {
      RunConserves(states, ops, n - 1);
      assert StepAt(states, ops, n - 1);
      StepConserves(ops[n - 1], states[n - 1], states[n], states[0].contents,
                    AllProduced(states, ops, n - 1), AllConsumed(states, ops, n - 1));
    }
  }

  /** What stops a run: a `prepare` or `overflow` that throws, or a client that writes more
      than it has prepared. */
  ghost predicate Stops(op: Op, s: Fifo) {
    match op
    case Prepare(n) => |s.contents| + n > s.max
    case Fill(data) => |data| > |s.output|
    case Put(c) => c.Some? && |s.contents| == s.max
    case _ => false
  }

  method RunOne(sb: StreamBuf, op: Op) returns (ok: bool)
    requires sb.Valid()
    modifies sb, sb.buffer
    ensures sb.Valid() && (sb.buffer == old(sb.buffer) || fresh(sb.buffer))
    ensures ok <==> !Stops(op, old(sb.Abs()))
    ensures ok ==> FifoStep(op, old(sb.Abs()), sb.Abs())
  {
    ok := true;
    match op {
      case Prepare(n) =>
        ok := sb.Prepare(n);
      case Fill(data) =>
        ok := |data| <= |sb.Output()|;
        if ok {
          sb.Fill(data);
        }
      case Commit(n) =>
        sb.Commit(n);
      case Consume(n) =>
        sb.Consume(n);
      case Put(c) =>
        ok := sb.Overflow(c);
    }
  }

  /** A run of `ops` from an empty streambuf to `state`. */
  ghost predicate Ran(max: nat, states: seq<Fifo>, ops: seq<Op>, state: Fifo) {
    IsRun(states, ops) && states[0].max == max && states[0].contents == [] && states[|ops|] == state
  }

  lemma RunExtends(max: nat, states: seq<Fifo>, ops: seq<Op>, state: Fifo, op: Op, next: Fifo)
    requires Ran(max, states, ops, state) && FifoStep(op, state, next)
    ensures Ran(max, states + [next], ops + [op], next)
  {
    forall i | 0 <= i < |ops| + 1
      ensures StepAt(states + [next], ops + [op], i)
    {
      if i < |ops| {
        assert StepAt(states, ops, i);
      }
    }
  }

  lemma RanConserves(max: nat, states: seq<Fifo>, ops: seq<Op>, state: Fifo)
    requires Ran(max, states, ops, state)
    ensures AllProduced(states, ops, |ops|) == AllConsumed(states, ops, |ops|) + state.contents
  {
    RunConserves(states, ops, |ops|);
    assert [] + AllProduced(states, ops, |ops|) == AllProduced(states, ops, |ops|);
  }

  /** The run so far, of which `state` is the end, goes on with `op` or stops at it. */
  method RunNext(sb: StreamBuf, op: Op, ghost max: nat, ghost states: seq<Fifo>, ghost ran: seq<Op>, ghost state: Fifo)
    returns (ok: bool, ghost states': seq<Fifo>, ghost state': Fifo)
    requires sb.Valid() && state == sb.Abs() && Ran(max, states, ran, state)
    modifies sb, sb.buffer
    ensures sb.Valid() && (sb.buffer == old(sb.buffer) || fresh(sb.buffer))
    ensures if ok then state' == sb.Abs() && Ran(max, states', ran + [op], state') else Stops(op, state)
  {
    ok := RunOne(sb, op);
    state' := sb.Abs();
    states' := states + [state'];
    if ok {
      RunExtends(max, states, ran, state, op, state');
    }
  }

  /** The class runs through any operations up to the first that cannot be done. */
  method RunUpTo(max: nat, ops: seq<Op>) returns (done: nat, contents: bytes, ghost states: seq<Fifo>, ghost state: Fifo)
    ensures done <= |ops| && Ran(max, states, ops[..done], state) && state.contents == contents
    ensures done < |ops| ==> Stops(ops[done], state)
  {
    var sb := new StreamBuf(max);
    done, contents, states, state := 0, [], [sb.Abs()], sb.Abs();
    while done < |ops|
      invariant sb.Valid() && fresh(sb) && fresh(sb.buffer)
      invariant done <= |ops| && state == sb.Abs() && Ran(max, states, ops[..done], state)
      invariant state.contents == contents
    {
      ghost var next, end;
      var ok;
      ok, next, end := RunNext(sb, ops[done], max, states, ops[..done], state);
      if !ok {
        break;
      }
      OneLonger(ops, done);
      states, state := next, end;
      contents := sb.Contents();
      done := done + 1;
    }
  }

  /** And it conserves octets all the way. */
  method RunAll(max: nat, ops: seq<Op>) returns (done: nat, contents: bytes, ghost states: seq<Fifo>)
    ensures done <= |ops| && |states| == done + 1 && Ran(max, states, ops[..done], states[done])
    ensures states[done].contents == contents
    ensures done < |ops| ==> Stops(ops[done], states[done])
    ensures AllProduced(states, ops[..done], done) == AllConsumed(states, ops[..done], done) + contents
  {
    ghost var state;
    done, contents, states, state := RunUpTo(max, ops);
    RanConserves(max, states, ops[..done], state);
  }
}

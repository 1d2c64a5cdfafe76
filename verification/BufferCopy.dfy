/**
 `buffer_copy` between sequences of buffers (task-3a/framework/dep/asio/include/asio/buffer.hpp).

 Memory is one array of octets, and a buffer is an address and a size in it, so buffers
 of a sequence may be empty, adjacent, repeated or anywhere.
 */
module BufferCopy {
  import opened Bytes

  datatype Buffer = Buffer(data: nat, size: nat)

  const SIZE_MAX: nat := 0xffff_ffff_ffff_ffff

  /** `b + n` and `b += n`. */
  function Plus(b: Buffer, n: nat): Buffer {
    var offset := if n < b.size then n else b.size;
    Buffer(b.data + offset, b.size - offset)
  }

  /** `buffer(b, max_size_in_bytes)`. */
  function Limit(b: Buffer, maxSize: nat): Buffer {
    Buffer(b.data, if b.size < maxSize then b.size else maxSize)
  }

  /** The addresses a buffer denotes, in order. */
  function Addresses(b: Buffer): (a: seq<nat>)
    ensures |a| == b.size
  {
    seq(b.size, i requires 0 <= i < b.size => b.data + i)
  }

  function Flatten(bs: seq<Buffer>): seq<nat>
    decreases |bs|
  {
    if bs == [] then [] else Flatten(bs[..|bs| - 1]) + Addresses(bs[|bs| - 1])
  }

  ghost predicate Valid(addresses: seq<nat>, size: nat) {
    forall i :: 0 <= i < |addresses| ==> addresses[i] < size
  }

  /** No overlap between what is written and what is read. */
  ghost predicate Disjoint(to: seq<nat>, from: seq<nat>) {
    forall i, j :: 0 <= i < |to| && 0 <= j < |from| ==> to[i] != from[j]
  }

  ghost predicate Copyable(to: seq<nat>, from: seq<nat>, size: nat) {
    Valid(to, size) && Valid(from, size) && Disjoint(to, from)
  }

  /** Memory after a single octet-by-octet copy of from[..n] to to[..n]. */
  ghost function CopyPrefix(mem: bytes, to: seq<nat>, from: seq<nat>, n: nat): (result: bytes)
    requires n <= |to| && n <= |from| && Valid(to, |mem|) && Valid(from, |mem|)
    ensures |result| == |mem|
  {
    if n == 0 then mem
    else var before := CopyPrefix(mem, to, from, n - 1); before[to[n - 1] := before[from[n - 1]]]
  }

  // ----- what a single copy does to memory

  lemma {:induction false} CopyFrame(mem: bytes, to: seq<nat>, from: seq<nat>, n: nat, a: nat)
    requires n <= |to| && n <= |from| && Valid(to, |mem|) && Valid(from, |mem|)
    requires a < |mem| && a !in to[..n]
    ensures CopyPrefix(mem, to, from, n)[a] == mem[a]
  {
    if n > 0 {
      assert to[n - 1] == to[..n][n - 1];
      assert forall i :: 0 <= i < n - 1 ==> to[..n - 1][i] == to[..n][i];
      CopyFrame(mem, to, from, n - 1, a);
    }
  }

  /** An address of the copied prefix reads as the corresponding source address did,
      unless the target names it again further on. */
  lemma {:induction false} CopyReads(mem: bytes, to: seq<nat>, from: seq<nat>, n: nat, i: nat)
    requires i < n <= |to| && n <= |from| && Copyable(to, from, |mem|)
    requires forall j :: i < j < n ==> to[j] != to[i]
    ensures CopyPrefix(mem, to, from, n)[to[i]] == mem[from[i]]
  {
    if i < n - 1 {
      CopyReads(mem, to, from, n - 1, i);
    } else {
      CopyFrame(mem, to, from, n - 1, from[n - 1]);
    }
  }

  /** Copying in two stages is copying once. */
  lemma {:induction false} CopyCompose(mem: bytes, to: seq<nat>, from: seq<nat>, k: nat, n: nat)
    requires k + n <= |to| && k + n <= |from| && Valid(to, |mem|) && Valid(from, |mem|)
    ensures CopyPrefix(CopyPrefix(mem, to, from, k), to[k..], from[k..], n) == CopyPrefix(mem, to, from, k + n)
  {
    if n > 0 {
      CopyCompose(mem, to, from, k, n - 1);
    }
  }

  /** Only the addresses of the prefix matter. */
  lemma {:induction false} CopySame(mem: bytes, to: seq<nat>, from: seq<nat>, to': seq<nat>, from': seq<nat>, n: nat)
    requires n <= |to| && n <= |from| && Valid(to, |mem|) && Valid(from, |mem|)
    requires n <= |to'| && n <= |from'| && Valid(to', |mem|) && Valid(from', |mem|)
    requires to[..n] == to'[..n] && from[..n] == from'[..n]
    ensures CopyPrefix(mem, to, from, n) == CopyPrefix(mem, to', from', n)
  {
    if n > 0 {
      assert to[n - 1] == to[..n][n - 1] == to'[n - 1] && from[n - 1] == from[..n][n - 1] == from'[n - 1];
      assert to[..n - 1] == to[..n][..n - 1] == to'[..n - 1];
      assert from[..n - 1] == from[..n][..n - 1] == from'[..n - 1];
      CopySame(mem, to, from, to', from', n - 1);
    }
  }

  /** One `memcpy` between disjoint ranges is such a copy. */
  lemma MemcpyIsCopy(was: bytes, now: bytes, to: seq<nat>, from: seq<nat>, n: nat)
    requires |now| == |was| && n <= |to| && n <= |from| && Copyable(to, from, |was|)
    requires forall i, j :: 0 <= i < j < n ==> to[i] != to[j]
    requires forall i :: 0 <= i < n ==> now[to[i]] == was[from[i]]
    requires forall a :: 0 <= a < |was| && a !in to[..n] ==> now[a] == was[a]
    ensures now == CopyPrefix(was, to, from, n)
  {
    forall a | 0 <= a < |was|
      ensures now[a] == CopyPrefix(was, to, from, n)[a]
    {
      if a in to[..n] {
        var i :| 0 <= i < n && to[..n][i] == a;
        CopyReads(was, to, from, n, i);
      } else {
        CopyFrame(was, to, from, n, a);
      }
    }
  }

  lemma BlockIsCopy(was: bytes, now: bytes, target: Buffer, source: Buffer, n: nat)
    requires |now| == |was| && n <= target.size && n <= source.size
    requires Copyable(Addresses(target), Addresses(source), |was|)
    requires target.data + n <= |was| && source.data + n <= |was|
    requires forall a :: target.data <= a < target.data + n ==> now[a] == was[source.data + (a - target.data)]
    requires forall a :: 0 <= a < |was| && !(target.data <= a < target.data + n) ==> now[a] == was[a]
    ensures now == CopyPrefix(was, Addresses(target), Addresses(source), n)
  {
    var to, from := Addresses(target), Addresses(source);
    assert forall i :: 0 <= i < n ==> to[..n][i] == target.data + i;
    forall a | target.data <= a < target.data + n
      ensures a in to[..n]
    {
      assert to[..n][a - target.data] == a;
    }
    MemcpyIsCopy(was, now, to, from, n);
  }

  lemma BlockInBounds(b: Buffer, size: nat)
    requires Valid(Addresses(b), size) && b.size > 0
    ensures b.data + b.size <= size
  {
    assert Addresses(b)[b.size - 1] < size;
  }

  method BufferCopy1(mem: array<byte>, target: Buffer, source: Buffer) returns (n: nat)
    requires Copyable(Addresses(target), Addresses(source), mem.Length)
    modifies mem
    ensures ChunkIsCopied(old(mem[..]), mem[..], target, source, n)
  {
    n := if target.size < source.size then target.size else source.size;
    ghost var was := mem[..];
    if n > 0 {
      BlockInBounds(target, mem.Length);
      BlockInBounds(source, mem.Length);
      forall i | 0 <= i < n {
        mem[target.data + i] := mem[source.data + i];
      }
      BlockIsCopy(was, mem[..], target, source, n);
    }
  }

  // ----- walking a sequence of buffers

  /** The cursor at offset `offset` of the buffer bs[index] is at position `pos` of the
      flattened sequence. */
  ghost predicate At(bs: seq<Buffer>, index: nat, offset: nat, pos: nat) {
    && index <= |bs|
    && (if index < |bs| then offset <= bs[index].size else offset == 0)
    && pos == |Flatten(bs[..index])| + offset
  }

  lemma {:induction false} FlattenPrefix(bs: seq<Buffer>, index: nat)
    requires index <= |bs|
    ensures |Flatten(bs[..index])| <= |Flatten(bs)|
    ensures Flatten(bs)[..|Flatten(bs[..index])|] == Flatten(bs[..index])
    ensures index < |bs| ==> Flatten(bs[..index + 1]) == Flatten(bs[..index]) + Addresses(bs[index])
    decreases |bs|
  {
    if index < |bs| {
      var init := bs[..|bs| - 1];
      assert init[..index] == bs[..index];
      FlattenPrefix(init, index);
      assert bs[..index + 1][..index] == bs[..index];
    } else {
      assert bs[..index] == bs;
    }
  }

  lemma AddressesAfter(b: Buffer, offset: nat)
    requires offset <= b.size
    ensures Addresses(Plus(b, offset)) == Addresses(b)[offset..]
  {
  }

  lemma SliceOfPrefix(whole: seq<nat>, prefix: seq<nat>, lo: nat)
    requires lo <= |prefix| <= |whole| && whole[..|prefix|] == prefix
    ensures whole[lo..|prefix|] == prefix[lo..]
  {
  }

  /** The rest of the current buffer is what comes next in the flattened sequence. */
  lemma CursorReads(bs: seq<Buffer>, index: nat, offset: nat, pos: nat)
    requires At(bs, index, offset, pos) && index < |bs|
    ensures var rest := Plus(bs[index], offset);
      && pos + rest.size <= |Flatten(bs)|
      && Flatten(bs)[pos..pos + rest.size] == Addresses(rest)
  {
    FlattenPrefix(bs, index);
    FlattenPrefix(bs, index + 1);
    var upTo := Flatten(bs[..index + 1]);
    SliceOfPrefix(Flatten(bs), upTo, pos);
    AddressesAfter(bs[index], offset);
    assert upTo[pos..] == Addresses(bs[index])[offset..];
  }

  lemma LimitedReads(bs: seq<Buffer>, index: nat, offset: nat, pos: nat, limit: nat)
    requires At(bs, index, offset, pos) && index < |bs|
    ensures var part := Limit(Plus(bs[index], offset), limit);
      && pos + part.size <= |Flatten(bs)|
      && Flatten(bs)[pos..pos + part.size] == Addresses(part)
  {
    CursorReads(bs, index, offset, pos);
    var rest := Plus(bs[index], offset);
    var part := Limit(rest, limit);
    assert Addresses(part) == Addresses(rest)[..part.size];
    assert Flatten(bs)[pos..pos + part.size] == Flatten(bs)[pos..pos + rest.size][..part.size];
  }

  lemma CursorMoves(bs: seq<Buffer>, index: nat, offset: nat, pos: nat, n: nat)
    requires At(bs, index, offset, pos) && index < |bs| && n <= Plus(bs[index], offset).size
    ensures n == Plus(bs[index], offset).size ==> At(bs, index + 1, 0, pos + n)
    ensures n < Plus(bs[index], offset).size ==> At(bs, index, offset + n, pos + n)
  {
    FlattenPrefix(bs, index);
  }

  lemma CursorEnds(bs: seq<Buffer>, pos: nat)
    requires At(bs, |bs|, 0, pos)
    ensures pos == |Flatten(bs)|
  {
    assert bs[..|bs|] == bs;
  }

  /** One chunk of a longer copy. */
  lemma CopyChunk(was: bytes, mem: bytes, to: seq<nat>, from: seq<nat>, to': seq<nat>, from': seq<nat>,
                  done: nat, n: nat)
    requires Copyable(to, from, |was|) && done + n <= |to| && done + n <= |from|
    requires mem == CopyPrefix(was, to, from, done)
    requires n <= |to'| && n <= |from'| && Valid(to', |was|) && Valid(from', |was|)
    requires to[done..][..n] == to'[..n] && from[done..][..n] == from'[..n]
    ensures CopyPrefix(mem, to', from', n) == CopyPrefix(was, to, from, done + n)
  {
    CopySame(mem, to[done..], from[done..], to', from', n);
    CopyCompose(was, to, from, done, n);
  }

  /** A walk over both sequences: `total` octets are copied, and both cursors are there. */
  ghost predicate Walking(was: bytes, now: bytes, targets: seq<Buffer>, sources: seq<Buffer>,
                          t: nat, tOffset: nat, s: nat, sOffset: nat, total: nat)
  {
    && Copyable(Flatten(targets), Flatten(sources), |was|)
    && At(targets, t, tOffset, total)
    && At(sources, s, sOffset, total)
    && total <= |Flatten(targets)|
    && total <= |Flatten(sources)|
    && now == CopyPrefix(was, Flatten(targets), Flatten(sources), total)
  }

  /** Parts of copyable sequences are copyable. */
  lemma PartsCopyable(to: seq<nat>, from: seq<nat>, to': seq<nat>, from': seq<nat>, lo: nat, size: nat)
    requires Copyable(to, from, size)
    requires lo + |to'| <= |to| && to[lo..lo + |to'|] == to'
    requires lo + |from'| <= |from| && from[lo..lo + |from'|] == from'
    ensures Copyable(to', from', size)
  {
  }

  /** The next chunk, what is left of the current target buffer and of the current source
      buffer up to `limit`, can be copied. */
  lemma ChunkCopyable(targets: seq<Buffer>, sources: seq<Buffer>, t: nat, tOffset: nat, s: nat, sOffset: nat,
                      total: nat, limit: nat, size: nat)
    requires Copyable(Flatten(targets), Flatten(sources), size)
    requires At(targets, t, tOffset, total) && At(sources, s, sOffset, total)
    requires t < |targets| && s < |sources|
    ensures Copyable(Addresses(Plus(targets[t], tOffset)), Addresses(Limit(Plus(sources[s], sOffset), limit)), size)
  {
    CursorReads(targets, t, tOffset, total);
    LimitedReads(sources, s, sOffset, total, limit);
    PartsCopyable(Flatten(targets), Flatten(sources), Addresses(Plus(targets[t], tOffset)),
                  Addresses(Limit(Plus(sources[s], sOffset), limit)), total, size);
  }

  /** What `BufferCopy1` does. */
  ghost predicate ChunkIsCopied(now: bytes, later: bytes, target: Buffer, source: Buffer, n: nat) {
    && n == Min(target.size, source.size)
    && Copyable(Addresses(target), Addresses(source), |now|)
    && later == CopyPrefix(now, Addresses(target), Addresses(source), n)
  }

  lemma SameStart(whole: seq<nat>, part: seq<nat>, lo: nat, n: nat)
    requires n <= |part| && lo + |part| <= |whole| && whole[lo..lo + |part|] == part
    ensures whole[lo..][..n] == part[..n]
  {
  }

  /** A chunk that is next in both flattened sequences extends the copy made so far. */
  lemma CopyChunkAt(was: bytes, now: bytes, later: bytes, to: seq<nat>, from: seq<nat>,
                    target: Buffer, source: Buffer, total: nat, n: nat)
    requires Copyable(to, from, |was|) && total <= |to| && total <= |from|
    requires now == CopyPrefix(was, to, from, total)
    requires total + target.size <= |to| && to[total..total + target.size] == Addresses(target)
    requires total + source.size <= |from| && from[total..total + source.size] == Addresses(source)
    requires ChunkIsCopied(now, later, target, source, n)
    ensures later == CopyPrefix(was, to, from, total + n)
  {
    SameStart(to, Addresses(target), total, n);
    SameStart(from, Addresses(source), total, n);
    CopyChunk(was, now, to, from, Addresses(target), Addresses(source), total, n);
  }

  lemma ChunkCopied(was: bytes, now: bytes, later: bytes, targets: seq<Buffer>, sources: seq<Buffer>,
                    t: nat, tOffset: nat, s: nat, sOffset: nat, total: nat, limit: nat, n: nat)
    requires Walking(was, now, targets, sources, t, tOffset, s, sOffset, total)
    requires t < |targets| && s < |sources|
    requires ChunkIsCopied(now, later, Plus(targets[t], tOffset), Limit(Plus(sources[s], sOffset), limit), n)
    ensures var tDone, sDone := n == Plus(targets[t], tOffset).size, n == Plus(sources[s], sOffset).size;
      Walking(was, later, targets, sources,
              if tDone then t + 1 else t, if tDone then 0 else tOffset + n,
              if sDone then s + 1 else s, if sDone then 0 else sOffset + n, total + n)
  {
    CursorReads(targets, t, tOffset, total);
    LimitedReads(sources, s, sOffset, total, limit);
    CopyChunkAt(was, now, later, Flatten(targets), Flatten(sources),
                Plus(targets[t], tOffset), Limit(Plus(sources[s], sOffset), limit), total, n);
    CursorMoves(targets, t, tOffset, total, n);
    CursorMoves(sources, s, sOffset, total, n);
  }

  lemma WalkEnds(was: bytes, now: bytes, targets: seq<Buffer>, sources: seq<Buffer>,
                 t: nat, tOffset: nat, s: nat, sOffset: nat, total: nat)
    requires Walking(was, now, targets, sources, t, tOffset, s, sOffset, total)
    requires t == |targets| || s == |sources|
    ensures total == Min(|Flatten(targets)|, |Flatten(sources)|)
  {
    if t == |targets| {
      CursorEnds(targets, total);
    } else {
      CursorEnds(sources, total);
    }
  }

  /** The body shared by both loops: copies the next chunk, of at most `limit` octets, and
      moves each cursor past its buffer if that was used up. */
  method CopyNextChunk(mem: array<byte>, ghost was: bytes, targets: seq<Buffer>, sources: seq<Buffer>,
                       t: nat, tOffset: nat, s: nat, sOffset: nat, ghost total: nat, limit: nat)
    returns (n: nat, t': nat, tOffset': nat, s': nat, sOffset': nat)
    requires Walking(was, mem[..], targets, sources, t, tOffset, s, sOffset, total)
    requires t < |targets| && s < |sources|
    modifies mem
    ensures n <= limit
    ensures Walking(was, mem[..], targets, sources, t', tOffset', s', sOffset', total + n)
    ensures t <= t' && s <= s' && (t < t' || s < s' || n == limit)
    ensures n == Plus(sources[s], sOffset).size ==> s < s'
  {
    ghost var now := mem[..];
    var target, source := Plus(targets[t], tOffset), Plus(sources[s], sOffset);
    ChunkCopyable(targets, sources, t, tOffset, s, sOffset, total, limit, |now|);
    n := BufferCopy1(mem, target, Limit(source, limit));
    ghost var later := mem[..];
    ChunkCopied(was, now, later, targets, sources, t, tOffset, s, sOffset, total, limit, n);
    if n == target.size {
      t', tOffset' := t + 1, 0;
    } else {
      t', tOffset' := t, tOffset + n;
    }
    if n == source.size {
      s', sOffset' := s + 1, 0;
    } else {
      s', sOffset' := s, sOffset + n;
    }
  }

  method CopyManyToMany(mem: array<byte>, targets: seq<Buffer>, sources: seq<Buffer>) returns (total: nat)
    requires Copyable(Flatten(targets), Flatten(sources), mem.Length)
    modifies mem
    ensures total == Min(|Flatten(targets)|, |Flatten(sources)|)
    ensures mem[..] == CopyPrefix(old(mem[..]), Flatten(targets), Flatten(sources), total)
  {
    ghost var was := mem[..];
    total := 0;
    var t, tOffset, s, sOffset := 0, 0, 0, 0;
    while t < |targets| && s < |sources|
      invariant Walking(was, mem[..], targets, sources, t, tOffset, s, sOffset, total)
      decreases |targets| - t + |sources| - s, |Flatten(sources)| - total
    {
      var unlimited := Plus(sources[s], sOffset).size;
      var n;
      n, t, tOffset, s, sOffset := CopyNextChunk(mem, was, targets, sources, t, tOffset, s, sOffset, total, unlimited);
      total := total + n;
    }
    WalkEnds(was, mem[..], targets, sources, t, tOffset, s, sOffset, total);
  }

  method CopyManyToManyMax(mem: array<byte>, targets: seq<Buffer>, sources: seq<Buffer>, max: nat)
    returns (total: nat)
    requires Copyable(Flatten(targets), Flatten(sources), mem.Length)
    modifies mem
    ensures total == Min(Min(|Flatten(targets)|, |Flatten(sources)|), max)
    ensures mem[..] == CopyPrefix(old(mem[..]), Flatten(targets), Flatten(sources), total)
  {
    ghost var was := mem[..];
    total := 0;
    var t, tOffset, s, sOffset := 0, 0, 0, 0;
    while total != max && t < |targets| && s < |sources|
      invariant Walking(was, mem[..], targets, sources, t, tOffset, s, sOffset, total)
      invariant total <= max
      decreases |targets| - t + |sources| - s, max - total
    {
      var n;
      n, t, tOffset, s, sOffset := CopyNextChunk(mem, was, targets, sources, t, tOffset, s, sOffset, total, max - total);
      total := total + n;
    }
    if total != max {
      WalkEnds(was, mem[..], targets, sources, t, tOffset, s, sOffset, total);
    }
  }

  // ----- one buffer on one side or both

  method CopyOneToOne(mem: array<byte>, target: Buffer, source: Buffer, max: nat) returns (n: nat)
    requires Copyable(Addresses(target), Addresses(source), mem.Length)
    modifies mem
    ensures n == Min(Min(target.size, source.size), max)
    ensures mem[..] == CopyPrefix(old(mem[..]), Addresses(target), Addresses(source), n)
  {
    ghost var was := mem[..];
    var limited := Limit(source, max);
    assert Addresses(limited) == Addresses(source)[..limited.size];
    PartsCopyable(Addresses(target), Addresses(source), Addresses(target), Addresses(limited), 0, mem.Length);
    n := BufferCopy1(mem, target, limited);
    CopySame(was, Addresses(target), Addresses(limited), Addresses(target), Addresses(source), n);
  }

  /** Buffer `whole`, of which `done` octets are behind, against the cursor of a sequence
      that may stop inside its last buffer. */
  ghost predicate Consumed(bs: seq<Buffer>, index: nat, whole: Buffer, rest: Buffer, done: nat) {
    && index <= |bs|
    && done == Min(|Flatten(bs[..index])|, whole.size)
    && rest == Plus(whole, done)
  }

  lemma ConsumeNext(bs: seq<Buffer>, index: nat, whole: Buffer, rest: Buffer, done: nat, a: seq<nat>)
    requires Consumed(bs, index, whole, rest, done) && index < |bs| && rest.size > 0
    requires |a| >= whole.size && a[..whole.size] == Addresses(whole)
    ensures done + bs[index].size <= |Flatten(bs)|
    ensures Flatten(bs)[done..done + bs[index].size] == Addresses(bs[index])
    ensures done + rest.size <= |a| && a[done..done + rest.size] == Addresses(rest)
  {
    FlattenPrefix(bs, index);
    CursorReads(bs, index, 0, done);
    AddressesAfter(whole, done);
    SliceOfPrefix(a, Addresses(whole), done);
  }

  lemma ConsumedNext(bs: seq<Buffer>, index: nat, whole: Buffer, rest: Buffer, done: nat, n: nat)
    requires Consumed(bs, index, whole, rest, done) && index < |bs| && rest.size > 0
    requires n == Min(rest.size, bs[index].size)
    ensures Consumed(bs, index + 1, whole, Plus(rest, n), done + n)
  {
    FlattenPrefix(bs, index);
  }

  lemma ConsumedEnds(bs: seq<Buffer>, index: nat, whole: Buffer, rest: Buffer, done: nat)
    requires Consumed(bs, index, whole, rest, done) && (rest.size == 0 || index == |bs|)
    ensures done == Min(|Flatten(bs)|, whole.size)
  {
    FlattenPrefix(bs, index);
    assert bs[..|bs|] == bs;
  }

  /** One target buffer `one` is being filled from `bs`. */
  ghost predicate Filling(was: bytes, now: bytes, one: seq<nat>, bs: seq<Buffer>, index: nat,
                          whole: Buffer, rest: Buffer, total: nat)
  {
    && Copyable(one, Flatten(bs), |was|)
    && whole.size <= |one| && one[..whole.size] == Addresses(whole)
    && Consumed(bs, index, whole, rest, total)
    && total <= |one| && total <= |Flatten(bs)|
    && now == CopyPrefix(was, one, Flatten(bs), total)
  }

  lemma FillingCopyable(was: bytes, now: bytes, one: seq<nat>, bs: seq<Buffer>, index: nat,
                        whole: Buffer, rest: Buffer, total: nat)
    requires Filling(was, now, one, bs, index, whole, rest, total) && index < |bs| && rest.size > 0
    ensures Copyable(Addresses(rest), Addresses(bs[index]), |now|)
  {
    ConsumeNext(bs, index, whole, rest, total, one);
    PartsCopyable(one, Flatten(bs), Addresses(rest), Addresses(bs[index]), total, |now|);
  }

  lemma FillingStep(was: bytes, now: bytes, later: bytes, one: seq<nat>, bs: seq<Buffer>, index: nat,
                    whole: Buffer, rest: Buffer, total: nat, n: nat)
    requires Filling(was, now, one, bs, index, whole, rest, total) && index < |bs| && rest.size > 0
    requires ChunkIsCopied(now, later, rest, bs[index], n)
    ensures Filling(was, later, one, bs, index + 1, whole, Plus(rest, n), total + n)
  {
    ConsumeNext(bs, index, whole, rest, total, one);
    CopyChunkAt(was, now, later, one, Flatten(bs), rest, bs[index], total, n);
    ConsumedNext(bs, index, whole, rest, total, n);
  }

  method CopyOneToMany(mem: array<byte>, target: Buffer, sources: seq<Buffer>, max: nat) returns (total: nat)
    requires Copyable(Addresses(target), Flatten(sources), mem.Length)
    modifies mem
    ensures total == Min(Min(target.size, |Flatten(sources)|), max)
    ensures mem[..] == CopyPrefix(old(mem[..]), Addresses(target), Flatten(sources), total)
  {
    ghost var was, one := mem[..], Addresses(target);
    var rest := Limit(target, max);
    ghost var whole := rest;
    assert one[..whole.size] == Addresses(whole);
    total := 0;
    var s := 0;
    while rest.size != 0 && s < |sources|
      invariant Filling(was, mem[..], one, sources, s, whole, rest, total)
    {
      ghost var now := mem[..];
      FillingCopyable(was, now, one, sources, s, whole, rest, total);
      var n := BufferCopy1(mem, rest, sources[s]);
      ghost var later := mem[..];
      FillingStep(was, now, later, one, sources, s, whole, rest, total, n);
      total := total + n;
      rest := Plus(rest, n);
      s := s + 1;
    }
    ConsumedEnds(sources, s, whole, rest, total);
  }

  /** One source buffer `one` is being drained into `bs`. */
  ghost predicate Draining(was: bytes, now: bytes, one: seq<nat>, bs: seq<Buffer>, index: nat,
                          whole: Buffer, rest: Buffer, total: nat)
  {
    && Copyable(Flatten(bs), one, |was|)
    && whole.size <= |one| && one[..whole.size] == Addresses(whole)
    && Consumed(bs, index, whole, rest, total)
    && total <= |one| && total <= |Flatten(bs)|
    && now == CopyPrefix(was, Flatten(bs), one, total)
  }

  lemma DrainingCopyable(was: bytes, now: bytes, one: seq<nat>, bs: seq<Buffer>, index: nat,
                        whole: Buffer, rest: Buffer, total: nat)
    requires Draining(was, now, one, bs, index, whole, rest, total) && index < |bs| && rest.size > 0
    ensures Copyable(Addresses(bs[index]), Addresses(rest), |now|)
  {
    ConsumeNext(bs, index, whole, rest, total, one);
    PartsCopyable(Flatten(bs), one, Addresses(bs[index]), Addresses(rest), total, |now|);
  }

  lemma DrainingStep(was: bytes, now: bytes, later: bytes, one: seq<nat>, bs: seq<Buffer>, index: nat,
                    whole: Buffer, rest: Buffer, total: nat, n: nat)
    requires Draining(was, now, one, bs, index, whole, rest, total) && index < |bs| && rest.size > 0
    requires ChunkIsCopied(now, later, bs[index], rest, n)
    ensures Draining(was, later, one, bs, index + 1, whole, Plus(rest, n), total + n)
  {
    ConsumeNext(bs, index, whole, rest, total, one);
    CopyChunkAt(was, now, later, Flatten(bs), one, bs[index], rest, total, n);
    ConsumedNext(bs, index, whole, rest, total, n);
  }

  method CopyManyToOne(mem: array<byte>, targets: seq<Buffer>, source: Buffer, max: nat) returns (total: nat)
    requires Copyable(Flatten(targets), Addresses(source), mem.Length)
    modifies mem
    ensures total == Min(Min(|Flatten(targets)|, source.size), max)
    ensures mem[..] == CopyPrefix(old(mem[..]), Flatten(targets), Addresses(source), total)
  {
    ghost var was, one := mem[..], Addresses(source);
    var rest := Limit(source, max);
    ghost var whole := rest;
    assert one[..whole.size] == Addresses(whole);
    total := 0;
    var t := 0;
    while rest.size != 0 && t < |targets|
      invariant Draining(was, mem[..], one, targets, t, whole, rest, total)
    {
      ghost var now := mem[..];
      DrainingCopyable(was, now, one, targets, t, whole, rest, total);
      var n := BufferCopy1(mem, targets[t], rest);
      ghost var later := mem[..];
      DrainingStep(was, now, later, one, targets, t, whole, rest, total, n);
      total := total + n;
      rest := Plus(rest, n);
      t := t + 1;
    }
    ConsumedEnds(targets, t, whole, rest, total);
  }

  // ----- the public functions

  /** A buffer sequence is either one buffer or a range of buffers, known statically. */
  datatype BufferSequence = OneBuffer(buffer: Buffer) | MultipleBuffers(buffers: seq<Buffer>)

  function All(bs: BufferSequence): seq<nat> {
    match bs
    case OneBuffer(b) => Addresses(b)
    case MultipleBuffers(bs) => Flatten(bs)
  }

  method BufferCopyMax(mem: array<byte>, target: BufferSequence, source: BufferSequence, max: nat)
    returns (total: nat)
    requires Copyable(All(target), All(source), mem.Length)
    modifies mem
    ensures total == Min(Min(|All(target)|, |All(source)|), max)
    ensures mem[..] == CopyPrefix(old(mem[..]), All(target), All(source), total)
  {
    match target {
      case OneBuffer(to) =>
        match source {
          case OneBuffer(from) => total := CopyOneToOne(mem, to, from, max);
          case MultipleBuffers(from) => total := CopyOneToMany(mem, to, from, max);
        }
      case MultipleBuffers(to) =>
        match source {
          case OneBuffer(from) => total := CopyManyToOne(mem, to, from, max);
          case MultipleBuffers(from) => total := CopyManyToManyMax(mem, to, from, max);
        }
    }
  }

  /** Without a maximum; with one buffer on one side the code passes SIZE_MAX as the maximum. */
  method BufferCopy(mem: array<byte>, target: BufferSequence, source: BufferSequence) returns (total: nat)
    requires Copyable(All(target), All(source), mem.Length)
    requires mem.Length <= 0xffff_ffff_ffff_ffff
    modifies mem
    ensures total == Min(|All(target)|, |All(source)|)
    ensures mem[..] == CopyPrefix(old(mem[..]), All(target), All(source), total)
  {
    match target {
      case OneBuffer(to) =>
        OneBufferFits(to, mem.Length);
        match source {
          case OneBuffer(from) => total := BufferCopy1(mem, to, from);
          case MultipleBuffers(from) => total := CopyOneToMany(mem, to, from, SIZE_MAX);
        }
      case MultipleBuffers(to) =>
        match source {
          case OneBuffer(from) =>
            OneBufferFits(from, mem.Length);
            total := CopyManyToOne(mem, to, from, SIZE_MAX);
          case MultipleBuffers(from) => total := CopyManyToMany(mem, to, from);
        }
    }
  }

  lemma OneBufferFits(b: Buffer, size: nat)
    requires Valid(Addresses(b), size)
    ensures b.size <= size
  {
    if b.size > 0 {
      BlockInBounds(b, size);
    }
  }

  /** A single buffer may be passed as a range of one: both denote the same addresses. */
  lemma OneIsManyOfOne(b: Buffer)
    ensures All(OneBuffer(b)) == All(MultipleBuffers([b]))
  {
    assert [b][..0] == [];
    assert Flatten([b]) == Flatten([]) + Addresses(b);
    assert [] + Addresses(b) == Addresses(b);
  }
}

/**
 Chunked bodies as section 7.1 of RFC 9112 writes them, and what the reader of
 `ChunkedReader` makes of them and of bodies that are cut short or go wrong.
 */
module ChunkedBody {
  import opened Bytes
  import opened HexNumbers
  import opened AsioReads
  import opened ChunkedReader
  import opened StreamBuffer

  /** chunk-size and chunk-ext. */
  datatype SizeLine = SizeLine(digits: bytes, extensions: bytes)

  datatype WireChunk = WireChunk(line: SizeLine, data: bytes)

  function Octets(l: SizeLine): bytes {
    l.digits + l.extensions
  }

  /** 1*HEXDIG for the number `n`, and extensions that begin with a semicolon or the white
      space before one. */
  predicate Grammatical(l: SizeLine, n: nat) {
    && Spells(l.digits, n)
    && LF !in l.extensions
    && (l.extensions != [] ==> l.extensions[0] as char in "; \t")
  }

  predicate WellFormed(c: WireChunk) {
    c.data != [] && Grammatical(c.line, |c.data|)
  }

  predicate WellFormedChunks(chunks: seq<WireChunk>) {
    chunks == [] || (WellFormed(chunks[0]) && WellFormedChunks(chunks[1..]))
  }

  /** The last chunk has no data. */
  predicate WellFormedBody(chunks: seq<WireChunk>, last: SizeLine) {
    WellFormedChunks(chunks) && Grammatical(last, 0)
  }

  function WireChunks(chunks: seq<WireChunk>): bytes {
    if chunks == [] then []
    else Octets(chunks[0].line) + CRLF + (chunks[0].data + CRLF + WireChunks(chunks[1..]))
  }

  /** `rest` is what follows the last chunk's line: trailers, CRLF and the next request. */
  function Wire(chunks: seq<WireChunk>, last: SizeLine, rest: bytes): bytes {
    WireChunks(chunks) + (Octets(last) + CRLF + rest)
  }

  function Data(chunks: seq<WireChunk>): bytes {
    if chunks == [] then [] else chunks[0].data + Data(chunks[1..])
  }

  // ----- one line

  /** The number of a grammatical line is read, extensions or not. */
  lemma SizeIsRead(l: SizeLine, n: nat)
    requires Grammatical(l, n)
    ensures LF !in Octets(l)
    ensures Stoul16(Octets(l) + [CR]) == if n < 18446744073709551616 then Value(n) else OutOfRange
  {
    var rest := l.extensions + [CR];
    Regroup(l.digits, l.extensions, [CR]);
    SpelledNumber(l.digits, n);
    NoDigitStarts(rest);
    ReadPlain(l.digits, rest, n);
  }

  lemma NoDigitStarts(rest: bytes)
    requires rest != [] && (rest[0] as char in "; \t" || rest[0] == CR)
    ensures !StartsWithDigit(rest) && rest[0] != 'x' as byte && rest[0] != 'X' as byte
  {
    forall d: nat | d < 16
      ensures !IsDigit(rest[0], d)
    {
      if IsDigit(rest[0], d) {
        DigitValue(rest[0], d);
      }
    }
  }

  ghost predicate NoCrlf(x: bytes) {
    forall j :: 0 <= j < |x| - 1 ==> x[j] != CR || x[j + 1] != LF
  }

  lemma NoMatchIn(x: bytes, tail: bytes, j: nat)
    requires NoCrlf(x) && j < |x|
    ensures !MatchesAt(x + CRLF + tail, j, CRLF)
  {
    var input := x + CRLF + tail;
    assert input[j] == x[j] && input[j + 1] == (if j + 1 < |x| then x[j + 1] else CR);
    assert input[j..j + 2][0] == input[j] && input[j..j + 2][1] == input[j + 1];
  }

  lemma LineEnd(line: bytes, tail: bytes)
    requires NoCrlf(line)
    ensures FirstEnd(line + CRLF + tail, 0, CRLF) == Some(|line| + 2)
  {
    var input := line + CRLF + tail;
    forall j | 0 <= j < |line|
      ensures !MatchesAt(input, j, CRLF)
    {
      NoMatchIn(line, tail, j);
    }
    FirstEndIs(input, 0, CRLF, |line|);
    assert input[|line|..|line| + 2] == CRLF;
  }

  lemma LineText(line: bytes, tail: bytes)
    requires LF !in line
    ensures FirstLine(line + CRLF + tail) == line + [CR] && AfterLine(line + CRLF + tail) == tail
  {
    assert line + CRLF + tail == line + [CR] + [LF] + tail;
    LineSplits(line + [CR], tail);
  }

  lemma NoEnd(input: bytes)
    requires NoCrlf(input)
    ensures FirstEnd(input, 0, CRLF) == None
  {
    forall j | 0 <= j < |input|
      ensures !MatchesAt(input, j, CRLF)
    {
      assert j + 2 <= |input| ==> input[j..j + 2][0] == input[j] && input[j..j + 2][1] == input[j + 1];
    }
    FirstEndIs(input, 0, CRLF, |input|);
  }

  /** A line that does not end before the connection does, or before the streambuf is full. */
  lemma UnendedLine(input: bytes, maxLine: nat)
    requires NoCrlf(input)
    ensures LineOf(input, maxLine) == Bad(if |input| < maxLine then ConnectionClosed else LineTooLong)
  {
    NoEnd(input);
  }

  /** What a line of which the number is `number` means to the reader. */
  function Meaning(length: nat, number: Stoul, tail: bytes, maxLine: nat): Line {
    if length + 2 > maxLine then Bad(LineTooLong)
    else if !number.Value? then Bad(Protocol)
    else if number.value == 0 then Last(tail)
    else Announces(tail, number.value, 0)
  }

  lemma LineMeans(text: bytes, tail: bytes, maxLine: nat)
    requires LF !in text
    ensures LineOf(text + CRLF + tail, maxLine) == Meaning(|text|, Stoul16(text + [CR]), tail, maxLine)
  {
    LineEnd(text, tail);
    LineText(text, tail);
  }

  // ----- what is needed to know about a reader

  ghost predicate Knows(reader: Reader, maxLine: nat, maxBody: nat, l: SizeLine, n: nat, tail: bytes,
                        stored: nat, arrivals: seq<nat>)
  {
    reader(Octets(l) + CRLF + tail, stored, arrivals) ==
      NextChunk(Meaning(|Octets(l)|, if n < ULONG_RANGE then Value(n) else OutOfRange, tail, maxLine), stored, maxBody, arrivals)
  }

  ghost predicate Bounded(next: Next, stored: nat, maxBody: nat) {
    match next
    case Chunk(data, _) => stored + |data| <= maxBody
    case Stop(result) => result.Body? ==> result.data == []
  }

  ghost predicate IsReader(reader: Reader, maxLine: nat, maxBody: nat) {
    && (forall l: SizeLine, n: nat, tail: bytes, stored: nat, arrivals: seq<nat> :: Grammatical(l, n) ==>
         Knows(reader, maxLine, maxBody, l, n, tail, stored, arrivals))
    && (forall input: bytes, stored: nat, arrivals: seq<nat> :: stored <= maxBody ==>
         Bounded(reader(input, stored, arrivals), stored, maxBody))
  }

  /** A line that does not end is an error. */
  ghost predicate Waits(reader: Reader, maxLine: nat) {
    forall input: bytes, stored: nat, arrivals: seq<nat> :: NoCrlf(input) ==>
      reader(input, stored, arrivals) == Stop(Fails(if |input| < maxLine then ConnectionClosed else LineTooLong))
  }

  lemma ReaderKnows(reader: Reader, maxLine: nat, maxBody: nat, c: WireChunk, tail: bytes, stored: nat, arrivals: seq<nat>)
    requires IsReader(reader, maxLine, maxBody) && WellFormed(c)
    ensures Knows(reader, maxLine, maxBody, c.line, |c.data|, tail, stored, arrivals)
  {
  }

  lemma ReaderOfIsReader(maxLine: nat, maxBody: nat)
    ensures IsReader(ReaderOf(maxLine, maxBody), maxLine, maxBody)
  {
    var reader := ReaderOf(maxLine, maxBody);
    forall l: SizeLine, n: nat, tail: bytes, stored: nat, arrivals: seq<nat> | Grammatical(l, n)
      ensures Knows(reader, maxLine, maxBody, l, n, tail, stored, arrivals)
    {
      SizeIsRead(l, n);
      LineMeans(Octets(l), tail, maxLine);
    }
    forall input: bytes, stored: nat, arrivals: seq<nat> | stored <= maxBody
      ensures Bounded(reader(input, stored, arrivals), stored, maxBody)
    {
      NextIsBounded(LineOf(input, maxLine), stored, maxBody, arrivals);
    }
  }

  lemma ReaderOfWaits(maxLine: nat, maxBody: nat)
    ensures Waits(ReaderOf(maxLine, maxBody), maxLine)
  {
    forall input: bytes, stored: nat, arrivals: seq<nat> | NoCrlf(input)
      ensures ReaderOf(maxLine, maxBody)(input, stored, arrivals) ==
        Stop(Fails(if |input| < maxLine then ConnectionClosed else LineTooLong))
    {
      UnendedLine(input, maxLine);
    }
  }

  lemma NextIsBounded(line: Line, stored: nat, maxBody: nat, arrivals: seq<nat>)
    requires stored <= maxBody
    ensures Bounded(NextChunk(line, stored, maxBody, arrivals), stored, maxBody)
  {
  }

  /** No body outgrows the maximum. */
  lemma {:induction false} BodyIsBounded(reader: Reader, maxLine: nat, maxBody: nat, input: bytes, stored: nat, arrivals: seq<nat>)
    requires IsReader(reader, maxLine, maxBody) && stored <= maxBody
    ensures var decoded := Decode(reader, input, stored, arrivals);
      decoded.Body? ==> stored + |decoded.data| <= maxBody
    decreases |arrivals|
  {
    var next := reader(input, stored, arrivals);
    assert Bounded(next, stored, maxBody);
    if next.Chunk? && arrivals != [] {
      BodyIsBounded(reader, maxLine, maxBody, next.left, stored + |next.data|, arrivals[1..]);
    }
  }

  // ----- chunks, and whatever follows them

  predicate ChunkLinesFit(chunks: seq<WireChunk>, maxLine: nat) {
    chunks == [] || (|Octets(chunks[0].line)| + 2 <= maxLine && ChunkLinesFit(chunks[1..], maxLine))
  }

  /** The first of the chunks on the wire, when it fits. */
  lemma NextOnWire(data: bytes, others: bytes, stored: nat, maxBody: nat, arrivals: seq<nat>)
    requires 0 < |data| && stored + |data| <= maxBody < ULONG_RANGE
    ensures var tail := data + CRLF + others;
      NextChunk(Announces(tail, |data|, 0), stored, maxBody, arrivals) ==
        if arrivals == [] || arrivals[0] > |tail| then Stop(Impossible) else Chunk(data, others)
  {
    var tail := data + CRLF + others;
    assert tail[..|data|] == data && tail[|data| + 2..] == others;
    if arrivals != [] && arrivals[0] <= |tail| {
      TakeCounted(tail, arrivals[0], |data|, maxBody - stored);
    }
  }

  lemma DecodeFirst(reader: Reader, c: WireChunk, others: bytes, stored: nat, maxBody: nat, maxLine: nat, arrivals: seq<nat>)
    requires c.data != [] && stored + |c.data| <= maxBody < ULONG_RANGE
    requires Knows(reader, maxLine, maxBody, c.line, |c.data|, c.data + CRLF + others, stored, arrivals)
    ensures Decode(reader, Octets(c.line) + CRLF + (c.data + CRLF + others), stored, arrivals) ==
      if |Octets(c.line)| + 2 > maxLine then Fails(LineTooLong)
      else if arrivals == [] || arrivals[0] > |c.data + CRLF + others| then Impossible
      else After(c.data, Decode(reader, others, stored + |c.data|, arrivals[1..]))
  {
    NextOnWire(c.data, others, stored, maxBody, arrivals);
  }

  lemma AfterBoth(x: bytes, y: bytes, others: Decoded)
    ensures After(x, After(y, others)) == After(x + y, others)
  {
    if others.Body? {
      Regroup(x, y, others.data);
    }
  }

  lemma WireSplits(chunks: seq<WireChunk>, tail: bytes)
    requires chunks != []
    ensures WireChunks(chunks) + tail ==
      Octets(chunks[0].line) + CRLF + (chunks[0].data + CRLF + (WireChunks(chunks[1..]) + tail))
  {
    var c, others := chunks[0], WireChunks(chunks[1..]);
    Regroup(Octets(c.line) + CRLF, c.data + CRLF + others, tail);
    Regroup(c.data + CRLF, others, tail);
  }

  /** Decoding chunks and then `tail`: the chunks' data, and then what the tail comes to. */
  ghost predicate Composes(decoded: Decoded, chunks: seq<WireChunk>, maxLine: nat, n: nat, others: Decoded) {
    || decoded == Impossible
    || (if ChunkLinesFit(chunks, maxLine) then n >= |chunks| && decoded == After(Data(chunks), others)
        else decoded == Fails(LineTooLong))
  }

  /** The first chunk, and then what the others and the tail come to. */
  ghost predicate Begins(decoded: Decoded, c: WireChunk, maxLine: nat, n: nat, others: Decoded) {
    || decoded == Impossible
    || (if |Octets(c.line)| + 2 > maxLine then decoded == Fails(LineTooLong) else n > 0 && decoded == After(c.data, others))
  }

  lemma ComposesMore(chunks: seq<WireChunk>, maxLine: nat, n: nat, decoded: Decoded, others: Decoded, end: Decoded)
    requires chunks != [] && Begins(decoded, chunks[0], maxLine, n, others)
    requires n > 0 ==> Composes(others, chunks[1..], maxLine, n - 1, end)
    ensures Composes(decoded, chunks, maxLine, n, end)
  {
    AfterBoth(chunks[0].data, Data(chunks[1..]), end);
  }

  lemma FirstBegins(reader: Reader, chunks: seq<WireChunk>, tail: bytes, stored: nat, maxBody: nat, maxLine: nat, arrivals: seq<nat>)
    requires IsReader(reader, maxLine, maxBody) && chunks != [] && WellFormed(chunks[0])
    requires stored + |chunks[0].data| <= maxBody < ULONG_RANGE
    ensures Begins(Decode(reader, WireChunks(chunks) + tail, stored, arrivals), chunks[0], maxLine, |arrivals|,
                   Decode(reader, WireChunks(chunks[1..]) + tail, stored + |chunks[0].data|, From(arrivals, 1)))
  {
    var c, others := chunks[0], WireChunks(chunks[1..]) + tail;
    WireSplits(chunks, tail);
    ChunkBegins(reader, c, others, stored, maxBody, maxLine, arrivals);
  }

  lemma ChunkBegins(reader: Reader, c: WireChunk, others: bytes, stored: nat, maxBody: nat, maxLine: nat, arrivals: seq<nat>)
    requires IsReader(reader, maxLine, maxBody) && WellFormed(c) && stored + |c.data| <= maxBody < ULONG_RANGE
    ensures Begins(Decode(reader, Octets(c.line) + CRLF + (c.data + CRLF + others), stored, arrivals), c, maxLine, |arrivals|,
                   Decode(reader, others, stored + |c.data|, From(arrivals, 1)))
  {
    ReaderKnows(reader, maxLine, maxBody, c, c.data + CRLF + others, stored, arrivals);
    DecodeFirst(reader, c, others, stored, maxBody, maxLine, arrivals);
  }

  /** In the end `total` octets are stored, and `later` is what arrives after that. */
  lemma {:induction false} ChunksThenTail(reader: Reader, chunks: seq<WireChunk>, tail: bytes, stored: nat, maxBody: nat,
                                          maxLine: nat, arrivals: seq<nat>, total: nat, later: seq<nat>)
    requires IsReader(reader, maxLine, maxBody) && WellFormedChunks(chunks)
    requires total == stored + |Data(chunks)| <= maxBody < ULONG_RANGE && later == From(arrivals, |chunks|)
    ensures Composes(Decode(reader, WireChunks(chunks) + tail, stored, arrivals), chunks, maxLine, |arrivals|,
                     Decode(reader, tail, total, later))
    decreases chunks
  {
    if chunks == [] {
      assert [] + tail == tail;
      AfterNothing(Decode(reader, tail, stored, arrivals));
    } else {
      var next := stored + |chunks[0].data|;
      FirstBegins(reader, chunks, tail, stored, maxBody, maxLine, arrivals);
      if arrivals != [] {
        FromNext(arrivals, |chunks|);
        ChunksThenTail(reader, chunks[1..], tail, next, maxBody, maxLine, From(arrivals, 1), total, later);
      }
      ComposesMore(chunks, maxLine, |arrivals|, Decode(reader, WireChunks(chunks) + tail, stored, arrivals),
                   Decode(reader, WireChunks(chunks[1..]) + tail, next, From(arrivals, 1)), Decode(reader, tail, total, later));
    }
  }

  /** What is left of `s` after `n` elements. */
  function From(s: seq<nat>, n: nat): seq<nat> {
    if n <= |s| then s[n..] else []
  }

  lemma FromNext(s: seq<nat>, n: nat)
    requires s != [] && n > 0
    ensures From(s, 1) == s[1..] && From(s[1..], n - 1) == From(s, n)
  {
  }

  lemma AfterNothing(decoded: Decoded)
    ensures After([], decoded) == decoded
  {
    if decoded.Body? {
      assert [] + decoded.data == decoded.data;
    }
  }

  // ----- whole bodies

  predicate LinesFit(chunks: seq<WireChunk>, last: SizeLine, maxLine: nat) {
    ChunkLinesFit(chunks, maxLine) && |Octets(last)| + 2 <= maxLine
  }

  /** Everything fits: the lines in the small streambuf, the data in the request's. */
  predicate Fits(chunks: seq<WireChunk>, last: SizeLine, stored: nat, maxBody: nat, maxLine: nat) {
    stored + |Data(chunks)| <= maxBody && LinesFit(chunks, last, maxLine)
  }

  lemma DecodeLast(reader: Reader, last: SizeLine, rest: bytes, stored: nat, maxBody: nat, maxLine: nat, arrivals: seq<nat>)
    requires Knows(reader, maxLine, maxBody, last, 0, rest, stored, arrivals)
    ensures Decode(reader, Octets(last) + CRLF + rest, stored, arrivals) ==
      if |Octets(last)| + 2 <= maxLine then Body([], rest) else Fails(LineTooLong)
  {
  }

  /** What a well-formed body comes to: its data if all lines fit, and otherwise that error. */
  lemma WholeBody(reader: Reader, chunks: seq<WireChunk>, last: SizeLine, rest: bytes,
                  stored: nat, maxBody: nat, maxLine: nat, arrivals: seq<nat>)
    requires IsReader(reader, maxLine, maxBody) && stored + |Data(chunks)| <= maxBody < ULONG_RANGE
    requires WellFormedBody(chunks, last)
    ensures var decoded := Decode(reader, Wire(chunks, last, rest), stored, arrivals);
      decoded != Impossible ==>
        decoded == if LinesFit(chunks, last, maxLine) then Body(Data(chunks), rest) else Fails(LineTooLong)
  {
    var total, later := stored + |Data(chunks)|, From(arrivals, |chunks|);
    ChunksThenTail(reader, chunks, Octets(last) + CRLF + rest, stored, maxBody, maxLine, arrivals, total, later);
    assert Knows(reader, maxLine, maxBody, last, 0, rest, total, later);
    DecodeLast(reader, last, rest, total, maxBody, maxLine, later);
    assert Data(chunks) + [] == Data(chunks);
  }

  /** However it arrives, a well-formed body is read as the data of its chunks, and nothing
      after the last chunk's line is taken, if and only if it fits. */
  lemma BodyIsReadIffItFits(chunks: seq<WireChunk>, last: SizeLine, rest: bytes,
                            stored: nat, maxBody: nat, maxLine: nat, arrivals: seq<nat>)
    requires WellFormedBody(chunks, last) && stored <= maxBody < ULONG_RANGE
    ensures var decoded := Decode(ReaderOf(maxLine, maxBody), Wire(chunks, last, rest), stored, arrivals);
      decoded != Impossible ==>
        (decoded == Body(Data(chunks), rest) <==> Fits(chunks, last, stored, maxBody, maxLine))
  {
    var reader := ReaderOf(maxLine, maxBody);
    ReaderOfIsReader(maxLine, maxBody);
    BodyIsBounded(reader, maxLine, maxBody, Wire(chunks, last, rest), stored, arrivals);
    if stored + |Data(chunks)| <= maxBody {
      WholeBody(reader, chunks, last, rest, stored, maxBody, maxLine, arrivals);
    }
  }

  // ----- bodies that are cut short

  ghost predicate Closed(decoded: Decoded) {
    decoded == Impossible || decoded == Fails(ConnectionClosed)
  }

  lemma CutLine(reader: Reader, text: bytes, k: nat, stored: nat, maxLine: nat, arrivals: seq<nat>)
    requires Waits(reader, maxLine) && LF !in text && k < |text| + 2 <= maxLine
    ensures Decode(reader, (text + CRLF)[..k], stored, arrivals) == Fails(ConnectionClosed)
  {
    var input := (text + CRLF)[..k];
    assert forall j :: 0 <= j < |input| ==> input[j] == if j < |text| then text[j] else CR;
    assert NoCrlf(input);
  }

  lemma CutData(reader: Reader, l: SizeLine, size: nat, tail: bytes, stored: nat, maxBody: nat, maxLine: nat, arrivals: seq<nat>)
    requires 0 < size && stored + size <= maxBody < ULONG_RANGE && |Octets(l)| + 2 <= maxLine && |tail| < size + 2
    requires Knows(reader, maxLine, maxBody, l, size, tail, stored, arrivals)
    ensures Closed(Decode(reader, Octets(l) + CRLF + tail, stored, arrivals))
  {
    if arrivals != [] && arrivals[0] <= |tail| {
      TakeCounted(tail, arrivals[0], size, maxBody - stored);
    }
  }

  lemma CutFirst(reader: Reader, c: WireChunk, k: nat, stored: nat, maxBody: nat, maxLine: nat, arrivals: seq<nat>)
    requires IsReader(reader, maxLine, maxBody) && Waits(reader, maxLine)
    requires WellFormed(c) && |Octets(c.line)| + 2 <= maxLine
    requires stored + |c.data| <= maxBody < ULONG_RANGE && k < |Octets(c.line)| + 2 + |c.data| + 2
    ensures Closed(Decode(reader, (Octets(c.line) + CRLF + (c.data + CRLF))[..k], stored, arrivals))
  {
    var line, n := Octets(c.line) + CRLF, |Octets(c.line)| + 2;
    SizeIsRead(c.line, |c.data|);
    if k < n {
      assert (line + (c.data + CRLF))[..k] == line[..k];
      CutLine(reader, Octets(c.line), k, stored, maxLine, arrivals);
    } else {
      var tail := (c.data + CRLF)[..k - n];
      assert (line + (c.data + CRLF))[..k] == line + tail;
      ReaderKnows(reader, maxLine, maxBody, c, tail, stored, arrivals);
      CutData(reader, c.line, |c.data|, tail, stored, maxBody, maxLine, arrivals);
    }
  }

  lemma ClosedAfter(data: bytes, others: Decoded)
    requires Closed(others)
    ensures Closed(After(data, others))
  {
  }

  /** Where a cut falls: in the first chunk, or after it. */
  lemma CutSplits(chunks: seq<WireChunk>, last: SizeLine, k: nat)
    requires chunks != [] && k < |Wire(chunks, last, [])|
    ensures var c, cut := chunks[0], Wire(chunks, last, [])[..k];
      var head := Octets(c.line) + CRLF + (c.data + CRLF);
      if k < |head| then cut == head[..k]
      else
        k - |head| < |Wire(chunks[1..], last, [])|
        && cut == Octets(c.line) + CRLF + (c.data + CRLF + Wire(chunks[1..], last, [])[..k - |head|])
  {
    var c, others := chunks[0], Wire(chunks[1..], last, []);
    var head := Octets(c.line) + CRLF + (c.data + CRLF);
    WireSplits(chunks, Octets(last) + CRLF + []);
    assert Wire(chunks, last, []) == head + others;
    if k >= |head| {
      assert (head + others)[..k] == head + others[..k - |head|];
    }
  }

  lemma CutLast(reader: Reader, last: SizeLine, k: nat, stored: nat, maxLine: nat, arrivals: seq<nat>)
    requires Waits(reader, maxLine) && Grammatical(last, 0) && |Octets(last)| + 2 <= maxLine && k < |Wire([], last, [])|
    ensures Closed(Decode(reader, Wire([], last, [])[..k], stored, arrivals))
  {
    SizeIsRead(last, 0);
    assert Wire([], last, []) == Octets(last) + CRLF;
    CutLine(reader, Octets(last), k, stored, maxLine, arrivals);
  }

  lemma CutLater(reader: Reader, c: WireChunk, cut: bytes, stored: nat, maxBody: nat, maxLine: nat, arrivals: seq<nat>)
    requires IsReader(reader, maxLine, maxBody) && WellFormed(c) && |Octets(c.line)| + 2 <= maxLine
    requires stored + |c.data| <= maxBody < ULONG_RANGE
    requires arrivals != [] ==> Closed(Decode(reader, cut, stored + |c.data|, arrivals[1..]))
    ensures Closed(Decode(reader, Octets(c.line) + CRLF + (c.data + CRLF + cut), stored, arrivals))
  {
    ReaderKnows(reader, maxLine, maxBody, c, c.data + CRLF + cut, stored, arrivals);
    DecodeFirst(reader, c, cut, stored, maxBody, maxLine, arrivals);
    if arrivals != [] {
      ClosedAfter(c.data, Decode(reader, cut, stored + |c.data|, arrivals[1..]));
    }
  }

  function FirstLength(chunks: seq<WireChunk>): nat
    requires chunks != []
  {
    |Octets(chunks[0].line) + CRLF + (chunks[0].data + CRLF)|
  }

  lemma CutInFirst(reader: Reader, chunks: seq<WireChunk>, last: SizeLine, k: nat,
                   stored: nat, maxBody: nat, maxLine: nat, arrivals: seq<nat>)
    requires IsReader(reader, maxLine, maxBody) && Waits(reader, maxLine) && chunks != []
    requires WellFormed(chunks[0]) && |Octets(chunks[0].line)| + 2 <= maxLine
    requires stored + |chunks[0].data| <= maxBody < ULONG_RANGE && k < FirstLength(chunks) && k < |Wire(chunks, last, [])|
    ensures Closed(Decode(reader, Wire(chunks, last, [])[..k], stored, arrivals))
  {
    CutSplits(chunks, last, k);
    CutFirst(reader, chunks[0], k, stored, maxBody, maxLine, arrivals);
  }

  lemma CutAfterFirst(reader: Reader, chunks: seq<WireChunk>, last: SizeLine, k: nat,
                      stored: nat, maxBody: nat, maxLine: nat, arrivals: seq<nat>)
    requires IsReader(reader, maxLine, maxBody) && chunks != []
    requires WellFormed(chunks[0]) && |Octets(chunks[0].line)| + 2 <= maxLine
    requires stored + |chunks[0].data| <= maxBody < ULONG_RANGE
    requires FirstLength(chunks) <= k < |Wire(chunks, last, [])|
    requires k - FirstLength(chunks) <= |Wire(chunks[1..], last, [])|
    requires arrivals != [] ==> Closed(Decode(reader, Wire(chunks[1..], last, [])[..k - FirstLength(chunks)],
                                              stored + |chunks[0].data|, arrivals[1..]))
    ensures Closed(Decode(reader, Wire(chunks, last, [])[..k], stored, arrivals))
  {
    CutSplits(chunks, last, k);
    CutLater(reader, chunks[0], Wire(chunks[1..], last, [])[..k - FirstLength(chunks)], stored, maxBody, maxLine, arrivals);
  }

  /** A well-formed body that ends early, wherever that is, is never taken for a whole one. */
  lemma {:induction false} CutShort(reader: Reader, chunks: seq<WireChunk>, last: SizeLine, k: nat,
                                    stored: nat, maxBody: nat, maxLine: nat, arrivals: seq<nat>)
    requires IsReader(reader, maxLine, maxBody) && Waits(reader, maxLine)
    requires WellFormedBody(chunks, last) && LinesFit(chunks, last, maxLine)
    requires stored + |Data(chunks)| <= maxBody < ULONG_RANGE && k < |Wire(chunks, last, [])|
    ensures Closed(Decode(reader, Wire(chunks, last, [])[..k], stored, arrivals))
    decreases chunks
  {
    if chunks == [] {
      CutLast(reader, last, k, stored, maxLine, arrivals);
    } else if k < FirstLength(chunks) {
      CutInFirst(reader, chunks, last, k, stored, maxBody, maxLine, arrivals);
    } else {
      CutSplits(chunks, last, k);
      if arrivals != [] {
        CutShort(reader, chunks[1..], last, k - FirstLength(chunks), stored + |chunks[0].data|, maxBody, maxLine, arrivals[1..]);
      }
      CutAfterFirst(reader, chunks, last, k, stored, maxBody, maxLine, arrivals);
    }
  }

  // ----- bodies that go wrong

  /** After well-formed chunks comes a line that is too long, is no number, or announces more
      than there is room for: the error is that of the line. */
  lemma BadLine(chunks: seq<WireChunk>, text: bytes, rest: bytes, maxBody: nat, maxLine: nat, arrivals: seq<nat>)
    requires WellFormedChunks(chunks) && ChunkLinesFit(chunks, maxLine) && |Data(chunks)| <= maxBody < ULONG_RANGE
    requires LF !in text
    ensures var decoded := Decode(ReaderOf(maxLine, maxBody), WireChunks(chunks) + (text + CRLF + rest), 0, arrivals);
      var number := Stoul16(text + [CR]);
      decoded == Impossible
      || (if |text| + 2 > maxLine then decoded == Fails(LineTooLong)
          else if !number.Value? then decoded == Fails(Protocol)
          else maxBody < |Data(chunks)| + number.value < ULONG_RANGE ==> decoded == Fails(PayloadTooLarge))
  {
    var reader, tail := ReaderOf(maxLine, maxBody), text + CRLF + rest;
    var total, later := |Data(chunks)|, From(arrivals, |chunks|);
    ReaderOfIsReader(maxLine, maxBody);
    ChunksThenTail(reader, chunks, tail, 0, maxBody, maxLine, arrivals, total, later);
    LineMeans(text, rest, maxLine);
    BadNext(Meaning(|text|, Stoul16(text + [CR]), rest, maxLine), total, maxBody, later);
  }

  lemma BadNext(line: Line, stored: nat, maxBody: nat, arrivals: seq<nat>)
    requires stored <= maxBody
    ensures line.Bad? ==> NextChunk(line, stored, maxBody, arrivals) == Stop(Fails(line.error))
    ensures line.Announces? && maxBody < stored + line.size < ULONG_RANGE ==>
      NextChunk(line, stored, maxBody, arrivals) == Stop(Fails(PayloadTooLarge))
  {
  }

  /** The octets that are left after `n` chunks. */
  ghost function Remaining(reader: Reader, input: bytes, stored: nat, arrivals: seq<nat>, n: nat): bytes
    decreases n
  {
    var next := reader(input, stored, arrivals);
    if n == 0 || arrivals == [] || next.Stop? then input
    else Remaining(reader, next.left, stored + |next.data|, arrivals[1..], n - 1)
  }

  lemma {:induction false} CompleteStops(reader: Reader, input: bytes, stored: nat, arrivals: seq<nat>)
    returns (n: nat, at: nat, last: seq<nat>)
    requires Decode(reader, input, stored, arrivals).Body?
    ensures var next := reader(Remaining(reader, input, stored, arrivals, n), at, last);
      next.Stop? && next.result.Body? && next.result.left == Decode(reader, input, stored, arrivals).left
    decreases |arrivals|
  {
    var next := reader(input, stored, arrivals);
    if next.Stop? {
      n, at, last := 0, stored, arrivals;
    } else {
      var m;
      m, at, last := CompleteStops(reader, next.left, stored + |next.data|, arrivals[1..]);
      n := m + 1;
    }
  }

  /** Whatever the octets are and however they arrive, a body is complete only after a line
      that has ended, with CRLF and within the limit, and whose number is zero. */
  lemma CompleteNeedsZero(input: bytes, stored: nat, maxLine: nat, maxBody: nat, arrivals: seq<nat>) returns (n: nat, end: nat)
    requires Decode(ReaderOf(maxLine, maxBody), input, stored, arrivals).Body?
    ensures var left := Remaining(ReaderOf(maxLine, maxBody), input, stored, arrivals, n);
      && FirstEnd(left, 0, CRLF) == Some(end) && end <= maxLine
      && Stoul16(FirstLine(left)) == Value(0)
      && Decode(ReaderOf(maxLine, maxBody), input, stored, arrivals).left == AfterLine(left)
  {
    var at, last;
    n, at, last := CompleteStops(ReaderOf(maxLine, maxBody), input, stored, arrivals);
    end := ZeroLine(Remaining(ReaderOf(maxLine, maxBody), input, stored, arrivals, n), at, maxLine, maxBody, last);
  }

  lemma ZeroLine(left: bytes, stored: nat, maxLine: nat, maxBody: nat, arrivals: seq<nat>) returns (end: nat)
    requires NextChunk(LineOf(left, maxLine), stored, maxBody, arrivals).Stop?
    requires NextChunk(LineOf(left, maxLine), stored, maxBody, arrivals).result.Body?
    ensures FirstEnd(left, 0, CRLF) == Some(end) && end <= maxLine && Stoul16(FirstLine(left)) == Value(0)
    ensures NextChunk(LineOf(left, maxLine), stored, maxBody, arrivals).result.left == AfterLine(left)
  {
    end := FirstEnd(left, 0, CRLF).value;
  }

  // ----- what the server does with all these

  lemma Halves(wire: bytes, n: nat)
    requires n <= |wire|
    ensures [] + wire[..n] + wire[n..] == wire
  {
  }

  /** The server reads the body in `wire`, of which `arrived` octets have come along with the
      header, from a connection that closes after it. */
  method ReadWire(wire: bytes, maxBody: nat, arrived: nat)
    returns (outcome: Outcome, body: bytes, left: bytes, ghost arrivals: seq<nat>)
    requires arrived <= |wire| && arrived <= maxBody
    ensures Reads(Decode(ReaderOf(Max(18, arrived), maxBody), wire, 0, arrivals), [], outcome, body, left)
  {
    var request := new StreamBuf(maxBody);
    var socket := new Socket(wire[arrived..]);
    var ok := request.Receive(arrived, wire[..arrived]);
    Halves(wire, arrived);
    var chunk;
    outcome, chunk, arrivals := ReadBody(socket, request);
    body, left := request.Contents(), chunk.Contents() + socket.pending;
  }

  /** The whole of a well-formed body is read if and only if it fits. */
  method ReadWellFormed(chunks: seq<WireChunk>, last: SizeLine, rest: bytes, maxBody: nat, arrived: nat)
    returns (outcome: Outcome, body: bytes, left: bytes)
    requires WellFormedBody(chunks, last) && maxBody < ULONG_RANGE
    requires arrived <= |Wire(chunks, last, rest)| && arrived <= maxBody
    ensures outcome == Complete && body == Data(chunks) && left == rest
       <==> Fits(chunks, last, 0, maxBody, Max(18, arrived))
  {
    ghost var arrivals;
    outcome, body, left, arrivals := ReadWire(Wire(chunks, last, rest), maxBody, arrived);
    BodyIsReadIffItFits(chunks, last, rest, 0, maxBody, Max(18, arrived), arrivals);
    assert [] + Data(chunks) == Data(chunks);
  }

  /** A body that is cut short anywhere is an error. */
  method ReadCutShort(chunks: seq<WireChunk>, last: SizeLine, k: nat, maxBody: nat, arrived: nat) returns (outcome: Outcome)
    requires WellFormedBody(chunks, last) && k < |Wire(chunks, last, [])| && arrived <= k && arrived <= maxBody
    requires |Data(chunks)| <= maxBody < ULONG_RANGE && LinesFit(chunks, last, Max(18, arrived))
    ensures outcome == Failed(ConnectionClosed)
  {
    ghost var body, left, arrivals;
    outcome, body, left, arrivals := ReadWire(Wire(chunks, last, [])[..k], maxBody, arrived);
    ReaderOfIsReader(Max(18, arrived), maxBody);
    ReaderOfWaits(Max(18, arrived), maxBody);
    CutShort(ReaderOf(Max(18, arrived), maxBody), chunks, last, k, 0, maxBody, Max(18, arrived), arrivals);
  }

  /** And so is a body that goes wrong at a line. */
  method ReadBadLine(chunks: seq<WireChunk>, text: bytes, rest: bytes, maxBody: nat, arrived: nat) returns (outcome: Outcome)
    requires WellFormedChunks(chunks) && ChunkLinesFit(chunks, Max(18, arrived)) && |Data(chunks)| <= maxBody < ULONG_RANGE
    requires LF !in text && arrived <= |WireChunks(chunks) + (text + CRLF + rest)| && arrived <= maxBody
    ensures |text| + 2 > Max(18, arrived) ==> outcome == Failed(LineTooLong)
    ensures |text| + 2 <= Max(18, arrived) && !Stoul16(text + [CR]).Value? ==> outcome == Failed(Protocol)
    ensures |text| + 2 <= Max(18, arrived) && Stoul16(text + [CR]).Value? ==>
      maxBody < |Data(chunks)| + Stoul16(text + [CR]).value < ULONG_RANGE ==> outcome == Failed(PayloadTooLarge)
  {
    ghost var body, left, arrivals;
    outcome, body, left, arrivals := ReadWire(WireChunks(chunks) + (text + CRLF + rest), maxBody, arrived);
    BadLine(chunks, text, rest, maxBody, Max(18, arrived), arrivals);
  }

  // ----- how much had come along with the header

  /** Reading a body of which `arrived` octets came along with the header. */
  function ReadAfterHeader(wire: bytes, maxBody: nat, arrived: nat, arrivals: seq<nat>): Decoded {
    Decode(ReaderOf(Max(18, arrived), maxBody), wire, 0, arrivals)
  }

  /** It makes no difference how much came along, when that may be up to `most` octets, or
      what arrived later. */
  ghost predicate ReadAlike(wire: bytes, maxBody: nat, most: nat) {
    forall a: nat, b: nat, x, y | a <= most && a <= |wire| && b <= most && b <= |wire| ::
      ReadAfterHeader(wire, maxBody, a, x) != Impossible && ReadAfterHeader(wire, maxBody, b, y) != Impossible ==>
        ReadAfterHeader(wire, maxBody, a, x) == ReadAfterHeader(wire, maxBody, b, y)
  }

  function Zeros(n: nat): (zeros: seq<nat>)
    ensures |zeros| == n
  {
    seq(n, _ => 0)
  }

  /** If nothing arrives ahead of being read, that is possible. */
  lemma {:induction false} ZerosArePossible(reader: Reader, chunks: seq<WireChunk>, tail: bytes,
                                            stored: nat, maxBody: nat, maxLine: nat)
    requires IsReader(reader, maxLine, maxBody) && WellFormedChunks(chunks)
    requires stored + |Data(chunks)| <= maxBody < ULONG_RANGE
    requires Decode(reader, tail, stored + |Data(chunks)|, []) != Impossible
    ensures Decode(reader, WireChunks(chunks) + tail, stored, Zeros(|chunks|)) != Impossible
  {
    var zeros := Zeros(|chunks|);
    if chunks == [] {
      assert [] + tail == tail && zeros == [];
    } else {
      ZerosArePossible(reader, chunks[1..], tail, stored + |chunks[0].data|, maxBody, maxLine);
      FirstIsPossible(reader, chunks, tail, stored, maxBody, maxLine, Zeros(|chunks| - 1));
      assert zeros == [0] + Zeros(|chunks| - 1);
    }
  }

  lemma FirstIsPossible(reader: Reader, chunks: seq<WireChunk>, tail: bytes, stored: nat, maxBody: nat, maxLine: nat, later: seq<nat>)
    requires IsReader(reader, maxLine, maxBody) && chunks != [] && WellFormed(chunks[0])
    requires stored + |chunks[0].data| <= maxBody < ULONG_RANGE
    requires Decode(reader, WireChunks(chunks[1..]) + tail, stored + |chunks[0].data|, later) != Impossible
    ensures Decode(reader, WireChunks(chunks) + tail, stored, [0] + later) != Impossible
  {
    var c, others := chunks[0], WireChunks(chunks[1..]) + tail;
    WireSplits(chunks, tail);
    ReaderKnows(reader, maxLine, maxBody, c, c.data + CRLF + others, stored, [0] + later);
    DecodeFirst(reader, c, others, stored, maxBody, maxLine, [0] + later);
    assert ([0] + later)[1..] == later;
  }

  lemma WireIsPossible(chunks: seq<WireChunk>, last: SizeLine, rest: bytes, maxBody: nat, arrived: nat)
    requires WellFormedBody(chunks, last) && |Data(chunks)| <= maxBody < ULONG_RANGE
    ensures ReadAfterHeader(Wire(chunks, last, rest), maxBody, arrived, Zeros(|chunks|)) ==
      if LinesFit(chunks, last, Max(18, arrived)) then Body(Data(chunks), rest) else Fails(LineTooLong)
  {
    var maxLine: nat := Max(18, arrived);
    var reader := ReaderOf(maxLine, maxBody);
    ReaderOfIsReader(maxLine, maxBody);
    assert Knows(reader, maxLine, maxBody, last, 0, rest, |Data(chunks)|, []);
    DecodeLast(reader, last, rest, |Data(chunks)|, maxBody, maxLine, []);
    ZerosArePossible(reader, chunks, Octets(last) + CRLF + rest, 0, maxBody, maxLine);
    WholeBody(reader, chunks, last, rest, 0, maxBody, maxLine, Zeros(|chunks|));
  }

  lemma {:induction false} LinesAreOnTheWire(chunks: seq<WireChunk>, n: nat)
    requires |WireChunks(chunks)| <= n
    ensures ChunkLinesFit(chunks, n)
  {
    if chunks != [] {
      LinesAreOnTheWire(chunks[1..], n);
    }
  }

  lemma {:induction false} WiderLines(chunks: seq<WireChunk>, m: nat, n: nat)
    requires m <= n && ChunkLinesFit(chunks, m)
    ensures ChunkLinesFit(chunks, n)
  {
    if chunks != [] {
      WiderLines(chunks[1..], m, n);
    }
  }

  lemma {:induction false} BothFit(chunks: seq<WireChunk>, m: nat, n: nat)
    requires ChunkLinesFit(chunks, m) && ChunkLinesFit(chunks, n)
    ensures ChunkLinesFit(chunks, Min(m, n))
  {
    if chunks != [] {
      BothFit(chunks[1..], m, n);
    }
  }

  lemma WholeAfterHeader(chunks: seq<WireChunk>, last: SizeLine, rest: bytes, maxBody: nat, arrived: nat, arrivals: seq<nat>)
    requires WellFormedBody(chunks, last) && |Data(chunks)| <= maxBody < ULONG_RANGE
    ensures var decoded := ReadAfterHeader(Wire(chunks, last, rest), maxBody, arrived, arrivals);
      decoded != Impossible ==>
        decoded == if LinesFit(chunks, last, Max(18, arrived)) then Body(Data(chunks), rest) else Fails(LineTooLong)
  {
    ReaderOfIsReader(Max(18, arrived), maxBody);
    WholeBody(ReaderOf(Max(18, arrived), maxBody), chunks, last, rest, 0, maxBody, Max(18, arrived), arrivals);
  }

  lemma FitIsReadAlike(chunks: seq<WireChunk>, last: SizeLine, rest: bytes, maxBody: nat, most: nat)
    requires WellFormedBody(chunks, last) && |Data(chunks)| <= maxBody < ULONG_RANGE
    requires LinesFit(chunks, last, 18)
    ensures ReadAlike(Wire(chunks, last, rest), maxBody, most)
  {
    var wire := Wire(chunks, last, rest);
    forall a: nat, x | ReadAfterHeader(wire, maxBody, a, x) != Impossible
      ensures ReadAfterHeader(wire, maxBody, a, x) == Body(Data(chunks), rest)
    {
      WiderLines(chunks, 18, Max(18, a));
      WholeAfterHeader(chunks, last, rest, maxBody, a, x);
    }
  }

  lemma UnfitIsReadAlike(chunks: seq<WireChunk>, last: SizeLine, rest: bytes, maxBody: nat, most: nat)
    requires WellFormedBody(chunks, last) && |Data(chunks)| <= maxBody < ULONG_RANGE
    requires !LinesFit(chunks, last, Max(18, most))
    ensures ReadAlike(Wire(chunks, last, rest), maxBody, most)
  {
    var wire := Wire(chunks, last, rest);
    forall a: nat, x | a <= most && ReadAfterHeader(wire, maxBody, a, x) != Impossible
      ensures ReadAfterHeader(wire, maxBody, a, x) == Fails(LineTooLong)
    {
      if LinesFit(chunks, last, Max(18, a)) {
        WiderLines(chunks, Max(18, a), Max(18, most));
      }
      WholeAfterHeader(chunks, last, rest, maxBody, a, x);
    }
  }

  /** A line that only fits if enough came along shows how much did. */
  lemma SometimesFits(chunks: seq<WireChunk>, last: SizeLine, rest: bytes, maxBody: nat, most: nat)
    requires WellFormedBody(chunks, last) && |Data(chunks)| <= maxBody < ULONG_RANGE
    requires !LinesFit(chunks, last, 18) && LinesFit(chunks, last, Max(18, most))
    ensures !ReadAlike(Wire(chunks, last, rest), maxBody, most)
  {
    var wire, zeros := Wire(chunks, last, rest), Zeros(|chunks|);
    var b: nat := Min(most, |wire|);
    LinesAreOnTheWire(chunks, Max(18, |wire|));
    BothFit(chunks, Max(18, most), Max(18, |wire|));
    WireIsPossible(chunks, last, rest, maxBody, 0);
    WireIsPossible(chunks, last, rest, maxBody, b);
    assert ReadAfterHeader(wire, maxBody, 0, zeros) != ReadAfterHeader(wire, maxBody, b, zeros);
  }

  /** A well-formed body that is not too large is read alike, whatever part of it came along
      with the header, up to the room that the header left, or arrived later, if and only
      if no line has more than 16 octets or some line does not fit in any case. */
  lemma ReadAlikeIff(chunks: seq<WireChunk>, last: SizeLine, rest: bytes, maxBody: nat, most: nat)
    requires WellFormedBody(chunks, last)
    requires |Data(chunks)| <= maxBody < ULONG_RANGE
    ensures ReadAlike(Wire(chunks, last, rest), maxBody, most)
       <==> LinesFit(chunks, last, 18) || !LinesFit(chunks, last, Max(18, most))
  {
    if LinesFit(chunks, last, 18) {
      FitIsReadAlike(chunks, last, rest, maxBody, most);
    } else if LinesFit(chunks, last, Max(18, most)) {
      SometimesFits(chunks, last, rest, maxBody, most);
    } else {
      UnfitIsReadAlike(chunks, last, rest, maxBody, most);
    }
  }

  lemma {:induction false} LeadingZeros(digits: bytes, d: nat)
    requires digits != [] && forall i :: 0 <= i < |digits| - 1 ==> digits[i] == '0' as byte
    requires d < 16 && IsDigit(digits[|digits| - 1], d)
    ensures Spells(digits, d)
  {
    var init := digits[..|digits| - 1];
    if init == [] {
      SpellsOne(digits[0], d);
      assert digits == [digits[0]];
    } else {
      LeadingZeros(init, 0);
      SpellsMore(init, 0, digits[|digits| - 1], d);
      assert digits == init + [digits[|digits| - 1]];
    }
  }

  lemma OneWireChunk(c: WireChunk, maxLine: nat)
    ensures WireChunks([c]) == Octets(c.line) + CRLF + (c.data + CRLF + []) && Data([c]) == c.data
    ensures (ChunkLinesFit([c], maxLine) <==> |Octets(c.line)| + 2 <= maxLine)
    ensures WellFormedChunks([c]) <==> WellFormed(c)
  {
    assert [c][1..] == [] && WireChunks([c][1..]) == [] && c.data + [] == c.data;
    assert ChunkLinesFit([c][1..], maxLine) && WellFormedChunks([c][1..]);
  }

  /** One chunk of one octet, with a size of 17 digits: it is read exactly if at least 19
      octets of the body came along with the header. */
  lemma SeventeenDigits(b: byte, rest: bytes, maxBody: nat, arrived: nat, arrivals: seq<nat>)
    requires 0 < maxBody < ULONG_RANGE
    ensures var wire := Text("00000000000000001") + CRLF + ([b] + CRLF + []) + (Text("0") + CRLF + rest);
      ReadAfterHeader(wire, maxBody, arrived, arrivals) != Impossible ==>
        (ReadAfterHeader(wire, maxBody, arrived, arrivals) == Body([b], rest) <==> arrived >= 19)
  {
    var digits := Text("00000000000000001");
    var chunk, last := WireChunk(SizeLine(digits, []), [b]), SizeLine(Text("0"), []);
    LeadingZeros(digits, 1);
    LeadingZeros(Text("0"), 0);
    assert digits + [] == digits && Text("0") + [] == Text("0") && [b] + [] == [b];
    OneWireChunk(chunk, Max(18, arrived));
    assert LinesFit([chunk], last, Max(18, arrived)) <==> 19 <= Max(18, arrived);
    BodyIsReadIffItFits([chunk], last, rest, 0, maxBody, Max(18, arrived), arrivals);
  }

  // ----- a line feed on its own

  lemma CutLineText(line: bytes, head: bytes, tail: bytes)
    requires LF !in line && CR !in line && LF !in head
    ensures var input := line + [LF] + (head + CRLF + tail);
      && FirstEnd(input, 0, CRLF) == Some(|line| + |head| + 3)
      && FirstLine(input) == line && AfterLine(input) == head + CRLF + tail
  {
    var x := line + [LF] + head;
    assert forall i :: 0 <= i < |line| ==> line[i] in line;
    assert NoCrlf(x) && x + CRLF + tail == line + [LF] + (head + CRLF + tail);
    LineEnd(x, tail);
    LineSplits(line, head + CRLF + tail);
  }

  lemma CutLineIsRead(line: bytes, head: bytes, tail: bytes, size: nat, maxLine: nat)
    requires LF !in line && CR !in line && LF !in head && |line| + |head| + 3 <= maxLine
    requires Stoul16(line) == Value(size) && size > 0
    ensures LineOf(line + [LF] + (head + CRLF + tail), maxLine) == Announces(head + CRLF + tail, size, |head| + 2)
  {
    CutLineText(line, head, tail);
    LineIsRead(line + [LF] + (head + CRLF + tail), maxLine, |line| + |head| + 3, line, head + CRLF + tail, size);
  }

  /** A size that LF alone ends leaves behind what follows, up to CRLF. */
  lemma CutLineMeans(digits: bytes, n: nat, head: bytes, tail: bytes, maxLine: nat)
    requires Spells(digits, n) && 0 < n < ULONG_RANGE && LF !in head && |digits| + |head| + 3 <= maxLine
    ensures LineOf(digits + [LF] + (head + CRLF + tail), maxLine) ==
      Announces(head + CRLF + tail, n, |head| + 2)
  {
    DigitsOnly(digits, n);
    CutLineIsRead(digits, head, tail, n, maxLine);
  }

  lemma LineIsRead(input: bytes, maxLine: nat, n: nat, line: bytes, rest: bytes, size: nat)
    requires FirstEnd(input, 0, CRLF) == Some(n) && n <= maxLine && |line| < n
    requires FirstLine(input) == line && AfterLine(input) == rest && Stoul16(line) == Value(size) && size > 0
    ensures LineOf(input, maxLine) == Announces(rest, size, n - |line| - 1)
  {
  }

  lemma DigitsOnly(digits: bytes, n: nat)
    requires Spells(digits, n) && n < ULONG_RANGE
    ensures Stoul16(digits) == Value(n) && LF !in digits && CR !in digits
  {
    SpelledNumber(digits, n);
    ReadPlain(digits, [], n);
    assert digits + [] == digits;
  }

  /** If nothing else had arrived by then, the reader takes the chunk's data and comes back
      to what it has left behind. */
  lemma NothingArrived(head: bytes, data: bytes, others: bytes, room: nat)
    requires 0 < |data| <= room
    ensures var t := TakeAt(head + CRLF + (data + CRLF + others), |head| + 2, 0, |data|, room);
      t.Taken? && t.data == data && t.c + t.p == head + CRLF + others
  {
    var rest, n := head + CRLF + (data + CRLF + others), |head| + 2;
    assert rest[..n] == head + CRLF && rest[n..] == data + CRLF + others;
    assert rest[n..][..|data|] == data && rest[n..][|data| + 2..] == others;
  }

  /** If all had arrived, the reader takes what it has left behind for data. */
  lemma AllArrived(rest: bytes, behind: nat, size: nat, room: nat)
    requires size <= room && behind + size + 2 <= |rest|
    ensures var t := TakeAt(rest, behind, |rest| - behind, size, room);
      t.Taken? && t.data == rest[..size] && t.c + t.p == rest[size + 2..]
  {
  }

  const HELLO: bytes := Text("hello")
  const LAST_CHUNK: bytes := Text("0") + CRLF + CRLF
  const AFTER_FIVE: bytes := Text("0") + CRLF + (HELLO + CRLF + LAST_CHUNK)

  lemma NoSize(tail: bytes, maxLine: nat)
    requires maxLine >= 3
    ensures LineOf(Text("o") + CRLF + tail, maxLine) == Bad(Protocol)
  {
    LineMeans(Text("o"), tail, maxLine);
    var text := Text("o") + [CR];
    forall d: nat | d < 16
      ensures !IsDigit(text[0], d)
    {
      if IsDigit(text[0], d) {
        DigitValue(text[0], d);
      }
    }
    assert text[..1] == [111] && Text("+") == [43] && Text("-") == [45];
    StoulRefuses([], [], text);
    assert [] + ([] + text) == text;
  }

  lemma NothingOfHello(maxBody: nat)
    requires 5 <= maxBody < ULONG_RANGE
    ensures NextChunk(Announces(AFTER_FIVE, 5, 3), 0, maxBody, [0]) == Chunk(HELLO, Text("0") + CRLF + LAST_CHUNK)
  {
    NothingArrived(Text("0"), HELLO, LAST_CHUNK, maxBody);
  }

  lemma AllOfHello(maxBody: nat)
    requires 5 <= maxBody < ULONG_RANGE
    ensures NextChunk(Announces(AFTER_FIVE, 5, 3), 0, maxBody, [12]) ==
      Chunk(AFTER_FIVE[..5], Text("o") + CRLF + LAST_CHUNK)
  {
    AllArrived(AFTER_FIVE, 3, 5, maxBody);
    assert AFTER_FIVE[7..] == Text("o") + CRLF + LAST_CHUNK;
  }

  lemma ReadAsHello(maxBody: nat, maxLine: nat)
    requires 5 <= maxBody < ULONG_RANGE && 18 <= maxLine
    ensures Decode(ReaderOf(maxLine, maxBody), Text("5") + [LF] + AFTER_FIVE, 0, [0]) == Body(HELLO, LAST_CHUNK)
  {
    FiveIsRead(maxLine);
    NothingOfHello(maxBody);
    ZeroIsRead(maxLine);
    ThenStop(ReaderOf(maxLine, maxBody), Text("5") + [LF] + AFTER_FIVE, 0, 0,
             HELLO, Text("0") + CRLF + LAST_CHUNK, Body([], LAST_CHUNK));
  }

  lemma RefusedAsMalformed(maxBody: nat, maxLine: nat)
    requires 5 <= maxBody < ULONG_RANGE && 18 <= maxLine
    ensures Decode(ReaderOf(maxLine, maxBody), Text("5") + [LF] + AFTER_FIVE, 0, [12]) == Fails(Protocol)
  {
    FiveIsRead(maxLine);
    AllOfHello(maxBody);
    NoSize(LAST_CHUNK, maxLine);
    ThenStop(ReaderOf(maxLine, maxBody), Text("5") + [LF] + AFTER_FIVE, 0, 12,
             AFTER_FIVE[..5], Text("o") + CRLF + LAST_CHUNK, Fails(Protocol));
  }

  /** 5 LF 0 CRLF hello CRLF 0 CRLF CRLF is read as hello, or refused, depending on what had
      arrived. */
  lemma LoneLineFeed(maxBody: nat, maxLine: nat)
    requires 5 <= maxBody < ULONG_RANGE && 18 <= maxLine
    ensures var input := Text("5") + [LF] + AFTER_FIVE;
      && Decode(ReaderOf(maxLine, maxBody), input, 0, [0]) == Body(HELLO, LAST_CHUNK)
      && Decode(ReaderOf(maxLine, maxBody), input, 0, [12]) == Fails(Protocol)
  {
    ReadAsHello(maxBody, maxLine);
    RefusedAsMalformed(maxBody, maxLine);
  }

  lemma FiveIsRead(maxLine: nat)
    requires 18 <= maxLine
    ensures LineOf(Text("5") + [LF] + AFTER_FIVE, maxLine) == Announces(AFTER_FIVE, 5, 3)
  {
    LeadingZeros(Text("5"), 5);
    CutLineMeans(Text("5"), 5, Text("0"), HELLO + CRLF + LAST_CHUNK, maxLine);
  }

  lemma ZeroIsRead(maxLine: nat)
    requires 18 <= maxLine
    ensures LineOf(Text("0") + CRLF + LAST_CHUNK, maxLine) == Last(LAST_CHUNK)
  {
    LeadingZeros(Text("0"), 0);
    SizeIsRead(SizeLine(Text("0"), []), 0);
    assert Text("0") + [] == Text("0");
    LineMeans(Text("0"), LAST_CHUNK, maxLine);
  }

  lemma ThenStop(reader: Reader, input: bytes, stored: nat, arrived: nat, data: bytes, left: bytes, result: Decoded)
    requires reader(input, stored, [arrived]) == Chunk(data, left)
    requires reader(left, stored + |data|, []) == Stop(result)
    ensures Decode(reader, input, stored, [arrived]) == After(data, result)
  {
    assert [arrived][1..] == [];
  }
}

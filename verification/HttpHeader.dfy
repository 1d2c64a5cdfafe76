/**
 Header fields: `HttpHeader::parse` (task-3a/framework/dep/Simple-Web-Server/utility.hpp)
 and `Response::write_header` (task-3a/framework/dep/Simple-Web-Server/server_http.hpp).
 */
module HttpHeader {
  import opened Bytes
  import opened QueryString

  const COLON: byte := 58

  /** The characters of a stream that have not been extracted. */
  class InputStream {
    var rest: bytes

    constructor (content: bytes)
      ensures rest == content
    {
      rest := content;
    }

    /** `std::getline`: false at the end of the stream. */
    method GetLine() returns (ok: bool, line: bytes)
      modifies this
      ensures ok <==> old(rest) != []
      ensures ok ==> line == FirstLine(old(rest)) && rest == AfterLine(old(rest))
      ensures !ok ==> rest == []
    {
      if rest == [] {
        return false, [];
      }
      var i := IndexOf(rest, LF);
      ok, line := true, rest[..i];
      rest := if i == |rest| then [] else rest[i + 1..];
    }
  }

  // ----- parsing

  /** Spaces are skipped from `start` on, but never the last character of the line. */
  function ValueStart(line: bytes, start: nat): (i: nat)
    requires start <= |line|
    ensures start <= i <= |line|
    decreases |line| - start
  {
    if start + 1 < |line| && line[start] == SPACE then ValueStart(line, start + 1) else start
  }

  function LineField(line: bytes): seq<Field>
    requires COLON in line
  {
    var colon := IndexOf(line, COLON);
    ColonFound(line);
    var start := ValueStart(line, colon + 1);
    if start == |line| then []
    else [Field(line[..colon], line[start..|line| - if line[|line| - 1] == CR then 1 else 0])]
  }

  lemma ColonFound(line: bytes)
    requires COLON in line
    ensures IndexOf(line, COLON) < |line|
  {
  }

  /** The fields up to the first line without a colon, and what follows that line. */
  function ParseLines(input: bytes): (seq<Field>, bytes)
    decreases |input|
  {
    if input == [] then ([], [])
    else if COLON !in FirstLine(input) then ([], AfterLine(input))
    else
      var (fields, rest) := ParseLines(AfterLine(input));
      (LineField(FirstLine(input)) + fields, rest)
  }

  /** The inner loop of `parse` and what it makes of one line. */
  method ParseLine(line: bytes) returns (field: seq<Field>)
    requires COLON in line
    ensures field == LineField(line)
  {
    var colon := IndexOf(line, COLON);
    ColonFound(line);
    var start := colon + 1;
    while start + 1 < |line| && line[start] == SPACE
      invariant colon + 1 <= start <= |line|
      invariant ValueStart(line, start) == ValueStart(line, colon + 1)
    {
      start := start + 1;
    }
    if start < |line| {
      field := [Field(line[..colon], line[start..|line| - if line[|line| - 1] == CR then 1 else 0])];
    } else {
      field := [];
    }
  }

  /** `result` has been parsed from `whole`, and `input` is still to be parsed. */
  ghost predicate Remains(whole: bytes, input: bytes, result: seq<Field>) {
    result + ParseLines(input).0 == ParseLines(whole).0 && ParseLines(input).1 == ParseLines(whole).1
  }

  lemma ParsedSoFar(whole: bytes, input: bytes, result: seq<Field>, field: seq<Field>)
    requires Remains(whole, input, result)
    requires input != [] && COLON in FirstLine(input) && field == LineField(FirstLine(input))
    ensures Remains(whole, AfterLine(input), result + field)
  {
    Regroup(result, field, ParseLines(AfterLine(input)).0);
  }

  method Parse(stream: InputStream) returns (result: seq<Field>)
    modifies stream
    ensures (result, stream.rest) == ParseLines(old(stream.rest))
  {
    ghost var whole, input := stream.rest, stream.rest;
    result := [];
    var ok, line := stream.GetLine();
    while ok && COLON in line
      invariant ok <==> input != []
      invariant ok ==> line == FirstLine(input) && stream.rest == AfterLine(input)
      invariant !ok ==> stream.rest == []
      invariant Remains(whole, input, result)
      decreases |input|
    {
      var field := ParseLine(line);
      ParsedSoFar(whole, input, result, field);
      result := result + field;
      input := AfterLine(input);
      ok, line := stream.GetLine();
    }
    assert ParseLines(input) == ([], stream.rest);
    assert result + [] == result;
  }

  // ----- printing

  function ToLower(c: byte): byte {
    if 65 <= c <= 90 then c + 32 else c
  }

  predicate CaseInsensitiveEqual(x: bytes, y: bytes) {
    |x| == |y| && forall i :: 0 <= i < |x| ==> ToLower(x[i]) == ToLower(y[i])
  }

  function Decimal(n: nat): (d: bytes)
    ensures d != [] && forall i :: 0 <= i < |d| ==> 48 <= d[i] <= 57
  {
    (if n < 10 then [] else Decimal(n / 10)) + [(48 + n % 10) as byte]
  }

  /** The number that decimal digits stand for, read from the left. */
  function ReadDecimal(d: bytes): int {
    if d == [] then 0 else 10 * ReadDecimal(d[..|d| - 1]) + (d[|d| - 1] as int - '0' as int)
  }

  /** `d` is how `n` is written: digits only, and no leading zero. */
  predicate IsDecimal(d: bytes, n: nat) {
    && d != [] && (forall i :: 0 <= i < |d| ==> d[i] as char in "0123456789")
    && ReadDecimal(d) == n
    && (|d| > 1 ==> d[0] != '0' as byte)
  }

  lemma OneDigit(c: byte, d: nat)
    requires d < 10 && c as int == 48 + d
    ensures IsDecimal([c], d)
  {
    assert [c][..0] == [];
  }

  lemma OneMoreDigit(init: bytes, n: nat, c: byte, d: nat)
    requires IsDecimal(init, n) && init[0] != '0' as byte && d < 10 && c as int == 48 + d
    ensures IsDecimal(init + [c], 10 * n + d) && (init + [c])[0] == init[0]
  {
    assert (init + [c])[..|init|] == init;
  }

  lemma {:induction false} DecimalIsRead(n: nat)
    ensures IsDecimal(Decimal(n), n) && (n > 0 ==> Decimal(n)[0] != '0' as byte)
  {
    var m, d, c := n / 10, n % 10, (48 + n % 10) as byte;
    assert n == 10 * m + d;
    if m > 0 {
      DecimalIsRead(m);
      OneMoreDigit(Decimal(m), m, c, d);
      DecimalEnds(n, m, c);
    } else {
      OneDigit(c, n);
      DecimalOne(n, c);
    }
  }

  lemma DecimalEnds(n: nat, m: nat, c: byte)
    requires n >= 10 && m == n / 10 && c as int == 48 + n % 10
    ensures Decimal(n) == Decimal(m) + [c]
  {
  }

  lemma DecimalOne(n: nat, c: byte)
    requires n < 10 && c as int == 48 + n
    ensures Decimal(n) == [c]
  {
  }

  /** `x` is the text `lower`, in any mix of cases; `upper` is the same in upper case. */
  predicate IsText(x: bytes, lower: string, upper: string)
    requires |lower| == |upper|
  {
    |x| == |lower| && forall i :: 0 <= i < |x| ==> x[i] as char == lower[i] || x[i] as char == upper[i]
  }

  /** No field gives the length or says that the body is chunked, and the connection does
      not close after the response. */
  predicate NeedsLength(header: seq<Field>, closing: bool) {
    && !closing
    && (forall i :: 0 <= i < |header| ==> !IsText(header[i].name, "content-length", "CONTENT-LENGTH"))
    && (forall i :: 0 <= i < |header| ==>
         !(IsText(header[i].name, "transfer-encoding", "TRANSFER-ENCODING") && IsText(header[i].value, "chunked", "CHUNKED")))
  }

  lemma LowerMeans(c: byte, lower: char, upper: char)
    requires ('a' <= lower <= 'z' && upper as int == lower as int - 32) || lower == upper == '-'
    ensures ToLower(c) == lower as byte <==> c as char == lower || c as char == upper
  {
  }

  lemma EqualMeansText(x: bytes, lower: string, upper: string)
    requires |lower| == |upper|
    requires forall i :: 0 <= i < |lower| ==>
      ('a' <= lower[i] <= 'z' && upper[i] as int == lower[i] as int - 32) || lower[i] == upper[i] == '-'
    ensures CaseInsensitiveEqual(x, Text(lower)) <==> IsText(x, lower, upper)
  {
    forall i | 0 <= i < |x| && |x| == |lower|
      ensures ToLower(x[i]) == ToLower(Text(lower)[i]) <==> x[i] as char == lower[i] || x[i] as char == upper[i]
    {
      LowerMeans(x[i], lower[i], upper[i]);
    }
  }

  lemma FieldMeans(f: Field)
    ensures IsContentLength(f) <==> IsText(f.name, "content-length", "CONTENT-LENGTH")
    ensures IsChunked(f) <==>
      IsText(f.name, "transfer-encoding", "TRANSFER-ENCODING") && IsText(f.value, "chunked", "CHUNKED")
  {
    EqualMeansText(f.name, "content-length", "CONTENT-LENGTH");
    EqualMeansText(f.name, "transfer-encoding", "TRANSFER-ENCODING");
    EqualMeansText(f.value, "chunked", "CHUNKED");
  }

  lemma AddedIff(header: seq<Field>, size: nat, closing: bool)
    ensures Added(header, size, closing) != [] <==> NeedsLength(header, closing)
  {
    forall i | 0 <= i < |header|
      ensures header[i] in header
      ensures IsContentLength(header[i]) <==> IsText(header[i].name, "content-length", "CONTENT-LENGTH")
      ensures IsChunked(header[i]) <==>
        IsText(header[i].name, "transfer-encoding", "TRANSFER-ENCODING") && IsText(header[i].value, "chunked", "CHUNKED")
    {
      FieldMeans(header[i]);
    }
  }

  /** A printed field line, and the line that is added, character by character. */
  lemma FieldLineIs(f: Field)
    ensures FieldLine(f) == f.name + Text(": ") + f.value + Text("\r\n")
  {
    assert Text(": ") == [COLON, SPACE] && Text("\r\n") == CRLF;
  }

  lemma LengthLineIs(size: nat)
    ensures FieldLine(Field(Text("Content-Length"), Decimal(size))) + CRLF ==
      Text("Content-Length: ") + Decimal(size) + Text("\r\n\r\n")
  {
    FieldLineIs(Field(Text("Content-Length"), Decimal(size)));
    assert Text("\r\n\r\n") == Text("\r\n") + CRLF;
    assert Text("Content-Length: ") == Text("Content-Length") + Text(": ");
  }

  function FieldLine(f: Field): bytes {
    f.name + [COLON, SPACE] + f.value + CRLF
  }

  function FieldLines(fields: seq<Field>): bytes {
    if fields == [] then [] else FieldLine(fields[0]) + FieldLines(fields[1..])
  }

  predicate IsContentLength(f: Field) {
    CaseInsensitiveEqual(f.name, Text("content-length"))
  }

  predicate IsChunked(f: Field) {
    CaseInsensitiveEqual(f.name, Text("transfer-encoding")) && CaseInsensitiveEqual(f.value, Text("chunked"))
  }

  predicate SaysLength(fields: seq<Field>) {
    exists f :: f in fields && IsContentLength(f)
  }

  predicate SaysChunked(fields: seq<Field>) {
    exists f :: f in fields && IsChunked(f)
  }

  lemma OneMoreField(fields: seq<Field>, f: Field)
    ensures SaysLength(fields + [f]) <==> SaysLength(fields) || IsContentLength(f)
    ensures SaysChunked(fields + [f]) <==> SaysChunked(fields) || IsChunked(f)
    ensures FieldLines(fields + [f]) == FieldLines(fields) + FieldLine(f)
  {
    assert forall g :: g in fields + [f] <==> g in fields || g == f;
    FieldLinesAppend(fields, [f]);
    FieldLinesOne(f);
  }

  /** The Content-Length field that is added unless the length is given otherwise. */
  function Added(fields: seq<Field>, size: nat, closing: bool): seq<Field> {
    if SaysLength(fields) || SaysChunked(fields) || closing then []
    else [Field(Text("Content-Length"), Decimal(size))]
  }

  lemma {:induction false} FieldLinesAppend(x: seq<Field>, y: seq<Field>)
    ensures FieldLines(x + y) == FieldLines(x) + FieldLines(y)
  {
    if x == [] {
      assert x + y == y;
    } else {
      assert (x + y)[1..] == x[1..] + y;
      FieldLinesAppend(x[1..], y);
    }
  }

  /** What is printed: every field's line, the length where it is needed, and a blank line. */
  ghost predicate Prints(output: bytes, header: seq<Field>, size: nat, closing: bool) {
    if NeedsLength(header, closing) then
      exists d :: IsDecimal(d, size) && output == FieldLines(header) + (Text("Content-Length: ") + d + Text("\r\n\r\n"))
    else
      output == FieldLines(header) + Text("\r\n")
  }

  method WriteHeader(header: seq<Field>, size: nat, closing: bool) returns (output: bytes)
    ensures output == FieldLines(header + Added(header, size, closing)) + CRLF
    ensures Prints(output, header, size, closing)
  {
    output := [];
    var contentLengthWritten, chunked := false, false;
    for i := 0 to |header|
      invariant contentLengthWritten <==> SaysLength(header[..i])
      invariant contentLengthWritten || chunked <==> SaysLength(header[..i]) || SaysChunked(header[..i])
      invariant output == FieldLines(header[..i])
    {
      var field := header[i];
      assert header[..i + 1] == header[..i] + [field];
      OneMoreField(header[..i], field);
      FieldLineIs(field);
      if !contentLengthWritten && IsContentLength(field) {
        contentLengthWritten := true;
      } else if !chunked && IsChunked(field) {
        chunked := true;
      }
      output := output + (field.name + Text(": ") + field.value + Text("\r\n"));
    }
    assert header[..|header|] == header;
    if !contentLengthWritten && !chunked && !closing {
      output := output + (Text("Content-Length: ") + Decimal(size) + Text("\r\n\r\n"));
      LengthAdded(header, size, closing);
    } else {
      output := output + Text("\r\n");
      NothingAdded(header, size, closing);
    }
  }

  lemma NothingAdded(header: seq<Field>, size: nat, closing: bool)
    requires Added(header, size, closing) == []
    ensures FieldLines(header + Added(header, size, closing)) + CRLF == FieldLines(header) + Text("\r\n")
    ensures Prints(FieldLines(header) + Text("\r\n"), header, size, closing)
  {
    assert Text("\r\n") == CRLF && header + [] == header;
    AddedIff(header, size, closing);
  }

  lemma LengthAdded(header: seq<Field>, size: nat, closing: bool)
    requires Added(header, size, closing) != []
    ensures var output := FieldLines(header) + (Text("Content-Length: ") + Decimal(size) + Text("\r\n\r\n"));
      FieldLines(header + Added(header, size, closing)) + CRLF == output && Prints(output, header, size, closing)
  {
    var added, line := Field(Text("Content-Length"), Decimal(size)), Text("Content-Length: ") + Decimal(size) + Text("\r\n\r\n");
    FieldLinesAppend(header, [added]);
    FieldLinesOne(added);
    LengthLineIs(size);
    Regroup(FieldLines(header), FieldLine(added), CRLF);
    AddedIff(header, size, closing);
    PrintsLength(FieldLines(header) + line, header, size, closing, Decimal(size));
  }

  lemma PrintsLength(output: bytes, header: seq<Field>, size: nat, closing: bool, d: bytes)
    requires NeedsLength(header, closing) && d == Decimal(size)
    requires output == FieldLines(header) + (Text("Content-Length: ") + d + Text("\r\n\r\n"))
    ensures Prints(output, header, size, closing)
  {
    DecimalIsRead(size);
  }

  lemma FieldLinesOne(f: Field)
    ensures FieldLines([f]) == FieldLine(f)
  {
  }

  // ----- parsing what was printed

  predicate CleanField(f: Field) {
    COLON !in f.name && LF !in f.name && LF !in f.value && (f.value != [] ==> f.value[0] != SPACE)
  }

  predicate Clean(fields: seq<Field>) {
    forall i :: 0 <= i < |fields| ==> CleanField(fields[i])
  }

  /** No character that ends a line or a name early. */
  predicate Legible(f: Field) {
    COLON !in f.name && LF !in f.name && LF !in f.value
  }

  function DropSpaces(value: bytes): bytes {
    if value != [] && value[0] == SPACE then DropSpaces(value[1..]) else value
  }

  /** What parsing makes of a legible field that was printed. */
  function Stripped(f: Field): Field {
    Field(f.name, DropSpaces(f.value))
  }

  function AllStripped(fields: seq<Field>): seq<Field> {
    if fields == [] then [] else [Stripped(fields[0])] + AllStripped(fields[1..])
  }

  lemma {:induction false} ValueStartSkips(line: bytes, start: nat, value: bytes)
    requires start <= |line| && line[start..] == value + [CR]
    ensures ValueStart(line, start) < |line|
    ensures line[ValueStart(line, start)..|line| - 1] == DropSpaces(value)
    decreases |value|
  {
    if value != [] {
      assert line[start] == value[0];
      if value[0] == SPACE {
        assert line[start + 1..] == line[start..][1..] == value[1..] + [CR];
        ValueStartSkips(line, start + 1, value[1..]);
      } else {
        assert line[start..|line| - 1] == value;
      }
    }
  }

  lemma LineFieldIs(line: bytes, name: bytes, value: bytes)
    requires COLON !in name && line == name + [COLON] + (value + [CR])
    ensures COLON in line && LineField(line) == [Field(name, DropSpaces(value))]
  {
    var colon := |name|;
    assert line[..colon] == name && line[colon] == COLON;
    IndexIs(line, COLON, colon);
    ValueStartSkips(line, colon + 1, value);
  }

  lemma PrintedLineParses(f: Field)
    requires Legible(f)
    ensures var line := f.name + [COLON, SPACE] + f.value + [CR];
      COLON in line && LineField(line) == [Stripped(f)]
  {
    var line := f.name + [COLON, SPACE] + f.value + [CR];
    var value := [SPACE] + f.value;
    assert line == f.name + [COLON] + (value + [CR]);
    LineFieldIs(line, f.name, value);
    assert value[1..] == f.value;
  }

  lemma FieldLineSplits(f: Field, rest: bytes)
    requires Legible(f)
    ensures FieldLine(f) + rest != []
    ensures FirstLine(FieldLine(f) + rest) == f.name + [COLON, SPACE] + f.value + [CR]
    ensures AfterLine(FieldLine(f) + rest) == rest
  {
    var line := f.name + [COLON, SPACE] + f.value + [CR];
    assert FieldLine(f) + rest == line + [LF] + rest;
    LineSplits(line, rest);
  }

  lemma {:induction false} PrintedFieldsParse(fields: seq<Field>, rest: bytes)
    requires forall i :: 0 <= i < |fields| ==> Legible(fields[i])
    ensures ParseLines(FieldLines(fields) + CRLF + rest) == (AllStripped(fields), rest)
  {
    var input := FieldLines(fields) + CRLF + rest;
    if fields == [] {
      assert input == [CR] + [LF] + rest;
      LineSplits([CR], rest);
    } else {
      var tail := FieldLines(fields[1..]) + CRLF + rest;
      assert input == FieldLine(fields[0]) + tail;
      FieldLineSplits(fields[0], tail);
      PrintedLineParses(fields[0]);
      PrintedFieldsParse(fields[1..], rest);
    }
  }

  lemma {:induction false} CleanIsUnstripped(fields: seq<Field>)
    requires Clean(fields)
    ensures AllStripped(fields) == fields
  {
    if fields != [] {
      CleanIsUnstripped(fields[1..]);
      assert fields == [fields[0]] + fields[1..];
    }
  }

  // ----- and only clean fields survive

  lemma LineHasNoLf(input: bytes)
    ensures LF !in FirstLine(input)
  {
  }

  lemma LineFieldIsLegible(line: bytes, i: nat)
    requires COLON in line && LF !in line && i < |LineField(line)|
    ensures Legible(LineField(line)[i])
  {
  }

  lemma {:induction false} ParsedIsLegible(input: bytes, i: nat)
    requires i < |ParseLines(input).0|
    ensures Legible(ParseLines(input).0[i])
    decreases |input|
  {
    var line := FirstLine(input);
    LineHasNoLf(input);
    var first := LineField(line);
    if i < |first| {
      LineFieldIsLegible(line, i);
    } else {
      ParsedIsLegible(AfterLine(input), i - |first|);
    }
  }

  lemma {:induction false} DropSpacesLeavesNone(value: bytes)
    ensures DropSpaces(value) != [] ==> DropSpaces(value)[0] != SPACE
    ensures forall c :: c in DropSpaces(value) ==> c in value
  {
    if value != [] && value[0] == SPACE {
      DropSpacesLeavesNone(value[1..]);
    }
  }

  lemma {:induction false} StrippedAreClean(fields: seq<Field>, i: nat)
    requires i < |AllStripped(fields)|
    requires forall j :: 0 <= j < |fields| ==> Legible(fields[j])
    ensures CleanField(AllStripped(fields)[i])
  {
    DropSpacesLeavesNone(fields[0].value);
    if i > 0 {
      StrippedAreClean(fields[1..], i - 1);
    }
  }

  lemma FoundAmong(x: seq<Field>, y: seq<Field>, i: nat) returns (j: nat)
    requires multiset(x) == multiset(y) && i < |x|
    ensures j < |y| && y[j] == x[i]
  {
    assert x[i] in multiset(y);
    assert x[i] in y;
    j :| 0 <= j < |y| && y[j] == x[i];
  }

  lemma AddedIsClean(fields: seq<Field>, size: nat, closing: bool)
    ensures Clean(Added(fields, size, closing))
  {
  }

  /** What `write_header` prints is parsed as the same fields, with the Content-Length it
      added, and leaves the stream just after the blank line, exactly when every name
      is free of colons and line feeds and every value of line feeds and leading spaces. */
  lemma HeaderRoundTripIffClean(fields: seq<Field>, size: nat, closing: bool, rest: bytes)
    ensures var all := fields + Added(fields, size, closing);
      var (parsed, left) := ParseLines(FieldLines(all) + CRLF + rest);
      multiset(parsed) == multiset(all) && left == rest <==> Clean(fields)
  {
    var all := fields + Added(fields, size, closing);
    AddedIsClean(fields, size, closing);
    if Clean(fields) {
      PrintedFieldsParse(all, rest);
      CleanIsUnstripped(all);
    }
    var parsed := ParseLines(FieldLines(all) + CRLF + rest).0;
    if multiset(parsed) == multiset(all) {
      SurvivorsAreClean(all, parsed, FieldLines(all) + CRLF + rest, rest);
      forall i | 0 <= i < |fields|
        ensures CleanField(fields[i])
      {
        assert all[i] == fields[i];
      }
    }
  }

  lemma SurvivorsAreClean(all: seq<Field>, parsed: seq<Field>, input: bytes, rest: bytes)
    requires input == FieldLines(all) + CRLF + rest && parsed == ParseLines(input).0
    requires multiset(parsed) == multiset(all)
    ensures Clean(all)
  {
    forall i | 0 <= i < |all|
      ensures Legible(all[i])
    {
      var j := FoundAmong(all, parsed, i);
      ParsedIsLegible(input, j);
    }
    PrintedFieldsParse(all, rest);
    forall i | 0 <= i < |all|
      ensures CleanField(all[i])
    {
      var j := FoundAmong(all, parsed, i);
      StrippedAreClean(all, j);
    }
  }

  // ----- parsing, in terms of characters

  /** A line without a carriage return: spaces before the value are dropped. */
  lemma FieldWithoutCr(name: bytes, spaces: nat, value: bytes)
    requires ':' as byte !in name && value != [] && value[0] != ' ' as byte && value[|value| - 1] != '\r' as byte
    ensures var line := name + Text(":") + seq(spaces, _ => ' ' as byte) + value;
      COLON in line && LineField(line) == [Field(name, value)]
  {
    var line, colon := name + Text(":") + seq(spaces, _ => ' ' as byte) + value, |name|;
    assert Text(":") == [COLON];
    assert line[..colon] == name && line[colon] == COLON;
    IndexIs(line, COLON, colon);
    SpacesSkipped(line, colon + 1, spaces);
    FieldAt(line, colon, colon + 1 + spaces);
    assert line[colon + 1 + spaces..] == value;
  }

  lemma FieldAt(line: bytes, colon: nat, start: nat)
    requires IndexOf(line, COLON) == colon < |line| && line[colon] == COLON
    requires ValueStart(line, colon + 1) == start < |line| && line[|line| - 1] != CR
    ensures COLON in line && LineField(line) == [Field(line[..colon], line[start..])]
  {
    assert line[start..|line|] == line[start..];
  }

  lemma {:induction false} SpacesSkipped(line: bytes, start: nat, spaces: nat)
    requires start + spaces < |line| && line[start + spaces] != SPACE
    requires forall i :: start <= i < start + spaces ==> line[i] == SPACE
    ensures ValueStart(line, start) == start + spaces
    decreases spaces
  {
    if spaces > 0 {
      SpacesSkipped(line, start + 1, spaces - 1);
    }
  }

  /** Of nothing but spaces after the colon, the last is the value. */
  lemma OnlySpaces(name: bytes, spaces: nat)
    requires ':' as byte !in name && spaces > 0
    ensures var line := name + Text(":") + seq(spaces, _ => ' ' as byte);
      COLON in line && LineField(line) == [Field(name, Text(" "))]
  {
    var line, colon := name + Text(":") + seq(spaces, _ => ' ' as byte), |name|;
    assert Text(":") == [COLON];
    assert line[..colon] == name && line[colon] == COLON;
    IndexIs(line, COLON, colon);
    LastSpaceKept(line, colon + 1);
    FieldAt(line, colon, |line| - 1);
    assert line[|line| - 1..] == Text(" ");
  }

  lemma {:induction false} LastSpaceKept(line: bytes, start: nat)
    requires start < |line| && forall i :: start <= i < |line| ==> line[i] == SPACE
    ensures ValueStart(line, start) == |line| - 1
    decreases |line| - start
  {
    if start + 1 < |line| {
      LastSpaceKept(line, start + 1);
    }
  }

  /** A line that ends at its colon gives no field. */
  lemma NothingAfterColon(name: bytes)
    requires ':' as byte !in name
    ensures COLON in name + Text(":") && LineField(name + Text(":")) == []
  {
    var line := name + Text(":");
    assert line[..|name|] == name && line[|name|] == COLON;
    IndexIs(line, COLON, |name|);
  }

  /** Lines are parsed one after the other, and the first without a colon is the last. */
  lemma ParsedLine(line: bytes, rest: bytes)
    requires '\n' as byte !in line
    ensures ParseLines(line + Text("\n") + rest) ==
      if ':' as byte in line then (LineField(line) + ParseLines(rest).0, ParseLines(rest).1) else ([], rest)
  {
    assert Text("\n") == [LF];
    LineSplits(line, rest);
  }
}

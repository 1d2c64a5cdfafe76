/**
 Query strings (task-3a/framework/dep/Simple-Web-Server/utility.hpp). A multimap is the
 sequence of its elements, in iteration order when it is read and in the order of
 insertion when it is built.
 */
module QueryString {
  import opened Bytes
  import opened Percent

  const AMPERSAND: byte := 38
  const EQUALS: byte := 61

  datatype Field = Field(name: bytes, value: bytes)

  // ----- creating

  function FieldText(f: Field): bytes {
    f.name + [EQUALS] + Encoded(f.value)
  }

  function Created(fields: seq<Field>): bytes {
    if fields == [] then []
    else (if |fields| == 1 then [] else Created(fields[..|fields| - 1]) + [AMPERSAND]) + FieldText(fields[|fields| - 1])
  }

  method Create(fields: seq<Field>) returns (result: bytes)
    ensures result == Created(fields)
  {
    result := [];
    var first := true;
    for i := 0 to |fields|
      invariant result == Created(fields[..i]) && (first <==> i == 0)
    {
      assert fields[..i + 1][..i] == fields[..i];
      var value := Encode(fields[i].value);
      result := result + ((if !first then [AMPERSAND] else []) + (fields[i].name + [EQUALS] + value));
      first := false;
    }
    assert fields[..|fields|] == fields;
  }

  // ----- parsing

  /** The parts of a query string between its ampersands. */
  function Segments(query: bytes): (segments: seq<bytes>)
    ensures segments != []
    decreases |query|
  {
    var i := IndexOf(query, AMPERSAND);
    if i == |query| then [query] else [query[..i]] + Segments(query[i + 1..])
  }

  /** A segment is a name up to its first equals sign, and a value; without a name it is
      no field. */
  function SegmentField(segment: bytes): seq<Field> {
    var i := IndexOf(segment, EQUALS);
    if i == 0 then [] else [Field(segment[..i], Decoded(if i == |segment| then [] else segment[i + 1..]))]
  }

  function Collect(segments: seq<bytes>): seq<Field> {
    if segments == [] then [] else SegmentField(segments[0]) + Collect(segments[1..])
  }

  function Parsed(query: bytes): seq<Field> {
    Collect(Segments(query))
  }

  lemma FirstSegment(query: bytes, i: nat)
    requires i < |query| && query[i] == AMPERSAND && AMPERSAND !in query[..i]
    ensures Segments(query) == [query[..i]] + Segments(query[i + 1..])
  {
    IndexIs(query, AMPERSAND, i);
  }

  lemma SegmentsStep(query: bytes, c: nat)
    requires c < |query| && query[c] == AMPERSAND && AMPERSAND !in query[..c]
    ensures Parsed(query) == SegmentField(query[..c]) + Parsed(query[c + 1..])
  {
    FirstSegment(query, c);
    var others := Segments(query[c + 1..]);
    assert ([query[..c]] + others)[1..] == others;
  }

  lemma SegmentsLast(query: bytes)
    requires AMPERSAND !in query
    ensures Parsed(query) == SegmentField(query)
  {
    assert query[..|query|] == query;
    IndexIs(query, AMPERSAND, |query|);
    assert Segments(query) == [query] && Collect([query]) == SegmentField(query) + Collect([]);
  }

  /** The scan of `parse` at position `c`: the current segment starts at `name`, and its
      first equals sign, if any yet, is at `nameEnd`. */
  ghost predicate Scanning(query: bytes, c: nat, name: nat, nameEnd: Option<nat>, value: Option<nat>) {
    && name <= c <= |query|
    && AMPERSAND !in query[name..c]
    && (nameEnd.None? ==> value.None? && EQUALS !in query[name..c])
    && (nameEnd.Some? ==> name <= nameEnd.value < c && value == Some(nameEnd.value + 1)
                          && query[nameEnd.value] == EQUALS && EQUALS !in query[name..nameEnd.value])
  }

  lemma ScannedField(query: bytes, c: nat, name: nat, nameEnd: Option<nat>, value: Option<nat>)
    requires Scanning(query, c, name, nameEnd, value)
    ensures SegmentField(query[name..c]) ==
      (var n := query[name..if nameEnd.None? then c else nameEnd.value];
       if n == [] then [] else [Field(n, Decoded(if value.None? then [] else query[value.value..c]))])
  {
    if nameEnd.Some? {
      assert query[name..c][..nameEnd.value - name] == query[name..nameEnd.value];
      assert query[name..c][nameEnd.value - name + 1..] == query[nameEnd.value + 1..c];
      FieldWithValue(query[name..c], nameEnd.value - name);
    } else {
      FieldWithoutValue(query[name..c]);
    }
  }

  lemma FieldWithValue(segment: bytes, e: nat)
    requires e < |segment| && segment[e] == EQUALS && EQUALS !in segment[..e]
    ensures SegmentField(segment) == if e == 0 then [] else [Field(segment[..e], Decoded(segment[e + 1..]))]
  {
    IndexIs(segment, EQUALS, e);
  }

  lemma FieldWithoutValue(segment: bytes)
    requires EQUALS !in segment
    ensures SegmentField(segment) == if segment == [] then [] else [Field(segment, Decoded([]))]
  {
    assert segment[..|segment|] == segment;
    IndexIs(segment, EQUALS, |segment|);
  }

  lemma ScanOn(query: bytes, c: nat, name: nat, nameEnd: Option<nat>, value: Option<nat>)
    requires Scanning(query, c, name, nameEnd, value) && c < |query| && query[c] != AMPERSAND
    ensures if query[c] == EQUALS && nameEnd.None?
            then Scanning(query, c + 1, name, Some(c), Some(c + 1))
            else Scanning(query, c + 1, name, nameEnd, value)
  {
  }

  lemma SegmentEnds(query: bytes, c: nat, name: nat)
    requires name <= c < |query| && query[c] == AMPERSAND && AMPERSAND !in query[name..c]
    ensures Parsed(query[name..]) == SegmentField(query[name..c]) + Parsed(query[c + 1..])
  {
    var rest := query[name..];
    assert rest[..c - name] == query[name..c] && rest[c - name + 1..] == query[c + 1..];
    SegmentsStep(rest, c - name);
  }

  /** The field, if any, of the segment that ends at `c`. */
  method FieldEndingAt(query: bytes, c: nat, name: nat, nameEnd: Option<nat>, value: Option<nat>)
    returns (field: seq<Field>)
    requires Scanning(query, c, name, nameEnd, value)
    ensures field == SegmentField(query[name..c])
  {
    ScannedField(query, c, name, nameEnd, value);
    var n := query[name..if nameEnd.None? then c else nameEnd.value];
    if n != [] {
      var v := Decode(if value.None? then [] else query[value.value..c]);
      field := [Field(n, v)];
    } else {
      field := [];
    }
  }

  method Parse(query: bytes) returns (result: seq<Field>)
    ensures result == Parsed(query)
  {
    result := [];
    if query == [] {
      SegmentsLast([]);
      return;
    }
    var name: nat := 0;
    var nameEnd: Option<nat>, value: Option<nat> := None, None;
    for c := 0 to |query|
      invariant Scanning(query, c, name, nameEnd, value)
      invariant result + Parsed(query[name..]) == Parsed(query)
    {
      if query[c] == AMPERSAND {
        var field := FieldEndingAt(query, c, name, nameEnd, value);
        SegmentEnds(query, c, name);
        Regroup(result, field, Parsed(query[c + 1..]));
        result := result + field;
        name, nameEnd, value := c + 1, None, None;
      } else {
        ScanOn(query, c, name, nameEnd, value);
        if query[c] == EQUALS && nameEnd.None? {
          nameEnd, value := Some(c), Some(c + 1);
        }
      }
    }
    assert query[name..|query|] == query[name..];
    SegmentsLast(query[name..]);
    if name < |query| {
      var field := FieldEndingAt(query, |query|, name, nameEnd, value);
      result := result + field;
    }
  }

  // ----- parsing what was created

  lemma {:induction false} CollectAppend(x: seq<bytes>, y: seq<bytes>)
    ensures Collect(x + y) == Collect(x) + Collect(y)
  {
    if x == [] {
      assert x + y == y;
    } else {
      assert (x + y)[1..] == x[1..] + y;
      CollectAppend(x[1..], y);
    }
  }

  lemma {:induction false} SegmentsAppend(x: bytes, y: bytes)
    ensures Segments(x + [AMPERSAND] + y) == Segments(x) + Segments(y)
    decreases |x|
  {
    var whole := x + [AMPERSAND] + y;
    var i := IndexOf(x, AMPERSAND);
    assert whole[..i] == x[..i];
    FirstSegment(whole, i);
    if i == |x| {
      assert x[..i] == x && whole[i + 1..] == y;
    } else {
      assert whole[i + 1..] == x[i + 1..] + [AMPERSAND] + y;
      SegmentsAppend(x[i + 1..], y);
      FirstSegment(x, i);
      Regroup([x[..i]], Segments(x[i + 1..]), Segments(y));
    }
  }

  lemma ParsedAppend(x: bytes, y: bytes)
    ensures Parsed(x + [AMPERSAND] + y) == Parsed(x) + Parsed(y)
  {
    SegmentsAppend(x, y);
    CollectAppend(Segments(x), Segments(y));
  }

  predicate CleanName(name: bytes) {
    name != [] && AMPERSAND !in name && EQUALS !in name
  }

  predicate Clean(fields: seq<Field>) {
    forall i :: 0 <= i < |fields| ==> CleanName(fields[i].name)
  }

  lemma OneFieldRoundTrip(f: Field)
    requires CleanName(f.name)
    ensures Parsed(FieldText(f)) == [f]
  {
    var text := FieldText(f);
    forall i | 0 <= i < |text|
      ensures text[i] != AMPERSAND
    {
      if i > |f.name| {
        EncodedAlphabet(f.value, i - |f.name| - 1);
      } else if i < |f.name| {
        assert text[i] == f.name[i];
      }
    }
    SegmentsLast(text);
    assert text[..|f.name|] == f.name && text[|f.name| + 1..] == Encoded(f.value);
    IndexIs(text, EQUALS, |f.name|);
    DecodeEncode(f.value);
  }

  lemma CreatedLast(init: seq<Field>, last: Field)
    requires init != []
    ensures Created(init + [last]) == Created(init) + [AMPERSAND] + FieldText(last)
  {
    var fields := init + [last];
    assert fields[..|fields| - 1] == init && fields[|fields| - 1] == last;
  }

  /** Fields with clean names come back as they were, in order, whatever their values. */
  lemma {:induction false} CleanFieldsRoundTrip(fields: seq<Field>)
    requires Clean(fields)
    ensures Parsed(Created(fields)) == fields
  {
    if fields == [] {
      SegmentsLast([]);
    } else {
      var init, last := fields[..|fields| - 1], fields[|fields| - 1];
      assert fields == init + [last];
      if init == [] {
        OneFieldRoundTrip(last);
        CreatedOne(last);
        assert fields == [last];
      } else {
        CleanFieldsRoundTrip(init);
        OneMoreRoundTrips(init, last);
      }
    }
  }

  lemma OneMoreRoundTrips(init: seq<Field>, last: Field)
    requires init != [] && Parsed(Created(init)) == init && CleanName(last.name)
    ensures Parsed(Created(init + [last])) == init + [last]
  {
    CreatedLast(init, last);
    ParsedAppend(Created(init), FieldText(last));
    OneFieldRoundTrip(last);
  }

  lemma {:induction false} CollectedNamesAreClean(segments: seq<bytes>, i: nat)
    requires i < |Collect(segments)|
    requires forall s :: s in segments ==> AMPERSAND !in s
    ensures CleanName(Collect(segments)[i].name)
  {
    var first := SegmentField(segments[0]);
    if i < |first| {
      var e := IndexOf(segments[0], EQUALS);
      assert forall c :: c in segments[0][..e] ==> c in segments[0];
    } else {
      CollectedNamesAreClean(segments[1..], i - |first|);
    }
  }

  lemma {:induction false} SegmentsHaveNoAmpersand(query: bytes)
    ensures forall s :: s in Segments(query) ==> AMPERSAND !in s
    decreases |query|
  {
    var i := IndexOf(query, AMPERSAND);
    if i == |query| {
      assert query[..i] == query;
    } else {
      SegmentsHaveNoAmpersand(query[i + 1..]);
    }
  }

  /** A field list survives as a multimap exactly when all its names are clean. */
  lemma RoundTripIffClean(fields: seq<Field>)
    ensures multiset(Parsed(Created(fields))) == multiset(fields) <==> Clean(fields)
  {
    if Clean(fields) {
      CleanFieldsRoundTrip(fields);
    }
    var result := Parsed(Created(fields));
    if multiset(result) == multiset(fields) {
      SegmentsHaveNoAmpersand(Created(fields));
      forall i | 0 <= i < |fields|
        ensures CleanName(fields[i].name)
      {
        assert fields[i] in multiset(fields);
        assert fields[i] in result;
        var j :| 0 <= j < |result| && result[j] == fields[i];
        CollectedNamesAreClean(Segments(Created(fields)), j);
      }
    }
  }

  // ----- the format, in terms of characters

  /** Field lists are joined by one ampersand; a field is its name, an equals sign and its
      value, encoded; and nothing else is written. */
  lemma {:induction false} CreatedJoins(x: seq<Field>, y: seq<Field>)
    requires x != [] && y != []
    ensures Created(x + y) == Created(x) + Text("&") + Created(y)
    decreases |y|
  {
    var init, last := y[..|y| - 1], y[|y| - 1];
    assert x + y == x + init + [last] && y == init + [last] && Text("&") == [AMPERSAND];
    CreatedLast(x + init, last);
    if init == [] {
      assert x + init == x;
      CreatedOne(last);
    } else {
      CreatedJoins(x, init);
      CreatedLast(init, last);
      RejoinCreated(Created(x), Created(init), FieldText(last));
    }
  }

  lemma RejoinCreated(x: bytes, y: bytes, z: bytes)
    ensures x + [AMPERSAND] + y + [AMPERSAND] + z == x + [AMPERSAND] + (y + [AMPERSAND] + z)
  {
  }

  lemma CreatedOne(f: Field)
    ensures Created([f]) == FieldText(f) == f.name + Text("=") + Encoded(f.value)
  {
    assert Text("=") == [EQUALS];
    assert Created([f]) == [] + FieldText(f);
  }

  /** A name ends at its first equals sign, and what is after that is decoded, further equals
      signs included. */
  lemma ParsedField(name: bytes, text: bytes)
    requires name != [] && '=' as byte !in name && '&' as byte !in name && '&' as byte !in text
    ensures Parsed(name + Text("=") + text) == [Field(name, Decoded(text))]
  {
    var s := name + Text("=") + text;
    assert Text("=") == [EQUALS];
    SegmentsLast(s);
    assert s[..|name|] == name && s[|name| + 1..] == text;
    IndexIs(s, EQUALS, |name|);
  }

  /** A name without an equals sign has an empty value; an empty name is no field. */
  lemma ParsedName(name: bytes, text: bytes)
    requires '=' as byte !in name && '&' as byte !in name && '&' as byte !in text
    ensures Parsed(name) == if name == [] then [] else [Field(name, [])]
    ensures Parsed(Text("=") + text) == []
  {
    SegmentsLast(name);
    assert name[..|name|] == name;
    IndexIs(name, EQUALS, |name|);
    assert Text("=") == [EQUALS];
    SegmentsLast(Text("=") + text);
  }

  /** Ampersands separate. */
  lemma ParsedJoins(x: bytes, y: bytes)
    ensures Parsed(x + Text("&") + y) == Parsed(x) + Parsed(y)
  {
    assert Text("&") == [AMPERSAND];
    ParsedAppend(x, y);
  }
}

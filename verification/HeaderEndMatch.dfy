/**
 `HeaderEndMatch`, the condition on which the client stops reading a header
 (task-3a/framework/dep/Simple-Web-Server/client_http.hpp): a matcher that is called on
 successive pieces of a stream and keeps two counters between the calls.
 */
module HeaderEndMatch {
  import opened Bytes

  datatype Counters = Counters(crlfcrlf: nat, lflf: nat)

  const FRESH := Counters(0, 0)

  /** One character; true when it completes a header end. */
  function Step(k: Counters, c: byte): (Counters, bool) {
    if c == LF then
      if k.crlfcrlf == 3 then (k, true)
      else
        var crlfcrlf := if k.crlfcrlf == 1 then 2 else if k.crlfcrlf == 2 then 0 else k.crlfcrlf;
        if k.lflf == 0 then (Counters(crlfcrlf, 1), false)
        else (Counters(crlfcrlf, k.lflf), k.lflf == 1)
    else if c == CR then
      (Counters(if k.crlfcrlf == 0 then 1 else if k.crlfcrlf == 2 then 3 else 0, 0), false)
    else (FRESH, false)
  }

  /** The counters after reading `data` up to a match, where that was, and whether there
      was one. */
  function Scan(k: Counters, data: bytes): (r: (Counters, nat, bool))
    ensures r.1 <= |data| && (!r.2 ==> r.1 == |data|)
    decreases data
  {
    if data == [] then (k, 0, false)
    else
      var (next, found) := Step(k, data[0]);
      if found then (next, 1, true)
      else var (last, pos, hit) := Scan(next, data[1..]); (last, pos + 1, hit)
  }

  class HeaderEndMatch {
    var crlfcrlf: nat
    var lflf: nat

    ghost function Abs(): Counters
      reads this
    {
      Counters(crlfcrlf, lflf)
    }

    constructor ()
      ensures Abs() == FRESH
    {
      crlfcrlf, lflf := 0, 0;
    }

    /** How far the data was read, and whether a header ends there. */
    method Match(data: bytes) returns (pos: nat, found: bool)
      modifies this
      ensures (Abs(), pos, found) == Scan(old(Abs()), data)
    {
      ghost var start := Abs();
      for it := 0 to |data|
        invariant var (last, p, hit) := Scan(Abs(), data[it..]); Scan(start, data) == (last, it + p, hit)
      {
        assert data[it..][1..] == data[it + 1..];
        if data[it] == LF {
          if crlfcrlf == 1 {
            crlfcrlf := crlfcrlf + 1;
          } else if crlfcrlf == 2 {
            crlfcrlf := 0;
          } else if crlfcrlf == 3 {
            return it + 1, true;
          }
          if lflf == 0 {
            lflf := lflf + 1;
          } else if lflf == 1 {
            return it + 1, true;
          }
        } else if data[it] == CR {
          if crlfcrlf == 0 {
            crlfcrlf := crlfcrlf + 1;
          } else if crlfcrlf == 2 {
            crlfcrlf := crlfcrlf + 1;
          } else {
            crlfcrlf := 0;
          }
          lflf := 0;
        } else {
          crlfcrlf := 0;
          lflf := 0;
        }
      }
      return |data|, false;
    }
  }

  // ----- the pieces do not matter

  lemma {:induction false} ScanAppend(k: Counters, x: bytes, y: bytes)
    ensures Scan(k, x + y) ==
      (var (middle, pos, found) := Scan(k, x);
       if found then (middle, pos, true)
       else var (last, more, hit) := Scan(middle, y); (last, |x| + more, hit))
    decreases x
  {
    if x == [] {
      assert x + y == y;
    } else {
      assert (x + y)[0] == x[0] && (x + y)[1..] == x[1..] + y;
      ScanAppend(Step(k, x[0]).0, x[1..], y);
    }
  }

  /** The calls of one matcher on successive pieces, up to the first match. */
  function ScanPieces(k: Counters, pieces: seq<bytes>): (Counters, nat, bool)
    decreases pieces
  {
    if pieces == [] then (k, 0, false)
    else
      var (middle, pos, found) := Scan(k, pieces[0]);
      if found then (middle, pos, true)
      else var (last, more, hit) := ScanPieces(middle, pieces[1..]); (last, |pieces[0]| + more, hit)
  }

  /** However a stream is cut into calls, the answer and the position are those of one
      call on the whole stream. */
  lemma {:induction false} PiecesDoNotMatter(k: Counters, pieces: seq<bytes>)
    ensures ScanPieces(k, pieces) == Scan(k, Concat(pieces))
    decreases pieces
  {
    if pieces != [] {
      ScanAppend(k, pieces[0], Concat(pieces[1..]));
      PiecesDoNotMatter(Scan(k, pieces[0]).0, pieces[1..]);
    }
  }

  // ----- where the matcher stops

  /** The last character but `back` of a prefix is `c`. */
  predicate Last(p: bytes, back: nat, c: byte) {
    back < |p| && p[|p| - 1 - back] == c
  }

  predicate EndsCrlf(p: bytes) {
    Last(p, 1, CR) && Last(p, 0, LF)
  }

  predicate EndsLflf(p: bytes) {
    Last(p, 1, LF) && Last(p, 0, LF)
  }

  predicate EndsCrlfcrlf(p: bytes) {
    Last(p, 3, CR) && Last(p, 2, LF) && Last(p, 1, CR) && Last(p, 0, LF)
  }

  predicate EndsHeader(p: bytes) {
    EndsLflf(p) || EndsCrlfcrlf(p)
  }

  /** The counters after a prefix, and whether it has been matched by its last character
      or before. */
  function After(p: bytes): (Counters, bool)
    decreases |p|
  {
    if p == [] then (FRESH, false)
    else
      var (k, found) := After(p[..|p| - 1]);
      if found then (k, true) else Step(k, p[|p| - 1])
  }

  /** What the counters know about the characters read. */
  ghost predicate Known(k: Counters, p: bytes) {
    && k.crlfcrlf <= 3 && k.lflf <= 1
    && (k.lflf == 1 <==> Last(p, 0, LF))
    && (k.crlfcrlf == 1 ==> Last(p, 0, CR))
    && (k.crlfcrlf == 2 ==> EndsCrlf(p))
    && (k.crlfcrlf == 3 ==> Last(p, 2, CR) && Last(p, 1, LF) && Last(p, 0, CR))
  }

  lemma StepKnows(k: Counters, p: bytes, c: byte)
    requires Known(k, p)
    ensures !Step(k, c).1 ==> Known(Step(k, c).0, p + [c])
    ensures Step(k, c).1 ==> EndsHeader(p + [c])
  {
  }

  lemma {:induction false} CountersAreRight(p: bytes)
    requires !After(p).1
    ensures Known(After(p).0, p)
    decreases |p|
  {
    if p != [] {
      CountersAreRight(p[..|p| - 1]);
      StepKnows(After(p[..|p| - 1]).0, p[..|p| - 1], p[|p| - 1]);
      assert p == p[..|p| - 1] + [p[|p| - 1]];
    }
  }

  /** Soundness: the character that completes a match completes a header end. */
  lemma MatchEndsHeader(p: bytes)
    requires p != [] && !After(p[..|p| - 1]).1 && After(p).1
    ensures EndsHeader(p)
  {
    CountersAreRight(p[..|p| - 1]);
    StepKnows(After(p[..|p| - 1]).0, p[..|p| - 1], p[|p| - 1]);
    assert p == p[..|p| - 1] + [p[|p| - 1]];
  }

  lemma AfterOne(p: bytes, c: byte)
    ensures After(p + [c]) == if After(p).1 then (After(p).0, true) else Step(After(p).0, c)
  {
  }

  lemma PrefixShift(p: bytes, data: bytes, i: nat)
    requires 1 <= i <= |data|
    ensures p + [data[0]] + data[1..][..i - 1] == p + data[..i]
  {
  }

  /** The scan stops at the first prefix that is matched, if there is one. */
  lemma {:induction false} ScanIsAfter(p: bytes, data: bytes)
    requires !After(p).1
    ensures var (last, pos, found) := Scan(After(p).0, data);
      && (forall i :: 0 <= i < pos ==> !After(p + data[..i]).1)
      && After(p + data[..pos]).1 == found
    decreases data
  {
    assert p + data[..0] == p;
    if data != [] {
      var q := p + [data[0]];
      var (next, found) := Step(After(p).0, data[0]);
      AfterOne(p, data[0]);
      assert data[..1] == [data[0]];
      if !found {
        ScanIsAfter(q, data[1..]);
        var pos := Scan(next, data[1..]).1;
        PrefixShift(p, data, pos + 1);
        forall i | 0 <= i < pos + 1
          ensures !After(p + data[..i]).1
        {
          if i > 0 {
            PrefixShift(p, data, i);
          }
        }
      }
    }
  }

  /** How many carriage returns `p` ends with. */
  function CrRun(p: bytes): (n: nat)
    ensures n <= |p| && (n > 0 <==> Last(p, 0, CR))
    decreases |p|
  {
    if p == [] || p[|p| - 1] != CR then 0 else 1 + CrRun(p[..|p| - 1])
  }

  /** A run of carriage returns alternates the counter between waiting and starting. */
  lemma {:induction false} RunCounter(p: bytes)
    requires !After(p).1 && Last(p, 0, CR)
    ensures var k := After(p).0.crlfcrlf;
      if CrRun(p) % 2 == 0 then k == 0 else k == 1 || (k == 3 && CrRun(p) == 1)
    decreases |p|
  {
    var init := p[..|p| - 1];
    CountersAreRight(init);
    if Last(init, 0, CR) {
      RunCounter(init);
    }
  }

  /** The matcher sees CRLFCRLF exactly when the first CR is the last of an odd run, as
      long as nothing matched before. */
  lemma SeesCrlfcrlf(p: bytes)
    requires EndsCrlfcrlf(p) && !After(p[..|p| - 1]).1
    ensures After(p).1 <==> CrRun(p[..|p| - 3]) % 2 == 1
  {
    var n := |p|;
    var r, s, t := p[..n - 3], p[..n - 2], p[..n - 1];
    assert t[..n - 2] == s && s[..n - 3] == r;
    RunCounter(r);
    CountersAreRight(r);
    CountersAreRight(s);
    CountersAreRight(t);
  }

  lemma SeesLflf(p: bytes)
    requires EndsLflf(p) && !After(p[..|p| - 1]).1
    ensures After(p).1
  {
  }

  /** The first header end in a stream is its shortest prefix that ends one. */
  ghost predicate FirstHeaderEnd(data: bytes, e: nat) {
    e <= |data| && EndsHeader(data[..e]) && forall i :: 0 <= i < e ==> !EndsHeader(data[..i])
  }

  lemma {:induction false} NothingBefore(data: bytes, e: nat, i: nat)
    requires i < e <= |data| && forall j :: 0 <= j < e ==> !EndsHeader(data[..j])
    ensures !After(data[..i]).1
  {
    if i > 0 {
      NothingBefore(data, e, i - 1);
      assert data[..i][..i - 1] == data[..i - 1];
      if After(data[..i]).1 {
        MatchEndsHeader(data[..i]);
      }
    }
  }

  lemma ScanStops(data: bytes)
    ensures var (last, pos, found) := Scan(FRESH, data);
      && (forall i :: 0 <= i < pos ==> !After(data[..i]).1)
      && After(data[..pos]).1 == found
  {
    ScanIsAfter([], data);
    assert forall i :: 0 <= i <= |data| ==> [] + data[..i] == data[..i];
  }

  /** Soundness of one scan: a match is where a header ends. */
  lemma MatchIsHeaderEnd(data: bytes)
    ensures var (last, pos, found) := Scan(FRESH, data); found ==> EndsHeader(data[..pos])
  {
    ScanStops(data);
    var (last, pos, found) := Scan(FRESH, data);
    if found {
      assert data[..pos][..pos - 1] == data[..pos - 1];
      MatchEndsHeader(data[..pos]);
    }
  }

  lemma StopsIffSeen(data: bytes, e: nat)
    requires FirstHeaderEnd(data, e)
    ensures Scan(FRESH, data).2 && Scan(FRESH, data).1 == e <==> After(data[..e]).1
  {
    ScanStops(data);
    MatchIsHeaderEnd(data);
  }

  lemma SeenIff(data: bytes, e: nat)
    requires FirstHeaderEnd(data, e)
    ensures After(data[..e]).1 <==> EndsLflf(data[..e]) || CrRun(data[..e - 3]) % 2 == 1
  {
    var p := data[..e];
    NothingBefore(data, e, e - 1);
    assert p[..e - 1] == data[..e - 1];
    if EndsLflf(p) {
      SeesLflf(p);
    } else {
      SeesCrlfcrlf(p);
      assert p[..e - 3] == data[..e - 3];
    }
  }

  /** Completeness of one scan. It stops at the first header end exactly when that is LFLF,
      or is CRLFCRLF where the first CR is the last of an odd number of consecutive CRs. */
  lemma StopsAtFirstIff(data: bytes, e: nat)
    requires FirstHeaderEnd(data, e)
    ensures Scan(FRESH, data).2 && Scan(FRESH, data).1 == e
       <==> EndsLflf(data[..e]) || CrRun(data[..e - 3]) % 2 == 1
  {
    StopsIffSeen(data, e);
    SeenIff(data, e);
  }

  /** Where every CR is followed by LF, no header end is missed. */
  lemma StopsAtFirst(data: bytes, e: nat)
    requires FirstHeaderEnd(data, e)
    requires forall i :: 0 <= i < |data| && data[i] == CR ==> i + 1 < |data| && data[i + 1] == LF
    ensures Scan(FRESH, data).2 && Scan(FRESH, data).1 == e
  {
    StopsAtFirstIff(data, e);
    if !EndsLflf(data[..e]) {
      LoneCr(data, e - 3);
      RunOfOne(data[..e - 3]);
    }
  }

  lemma LoneCr(data: bytes, i: nat)
    requires 0 < i < |data| && data[i - 1] == CR
    requires forall j :: 0 <= j < |data| && data[j] == CR ==> j + 1 < |data| && data[j + 1] == LF
    ensures Last(data[..i], 0, CR) && !Last(data[..i], 1, CR)
  {
  }

  lemma RunOfOne(p: bytes)
    requires Last(p, 0, CR) && !Last(p, 1, CR)
    ensures CrRun(p) == 1
  {
    assert CrRun(p[..|p| - 1]) == 0;
  }

  /** A stream whose only header end is missed. */
  lemma MissedHeaderEnd()
    ensures var data := [CR, CR, LF, CR, LF]; FirstHeaderEnd(data, 5) && !Scan(FRESH, data).2
  {
    var data := [CR, CR, LF, CR, LF];
    var p := data[..2];
    assert data[..5] == data && CrRun(p[..1]) == 1;
    StopsAtFirstIff(data, 5);
    MatchIsHeaderEnd(data);
  }
}

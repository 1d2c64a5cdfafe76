/**
 Percent encoding and decoding (task-3a/framework/dep/Simple-Web-Server/utility.hpp).
 */
module Percent {
  import opened Bytes
  import opened HexNumbers

  const PERCENT: byte := 37

  /** The unreserved characters of section 2.3 of RFC 3986. */
  predicate Unreserved(c: byte) {
    48 <= c <= 57 || 65 <= c <= 90 || 97 <= c <= 122 || c == 45 || c == 46 || c == 95 || c == 126
  }

  function HexChar(n: nat): (c: byte)
    requires n < 16
    ensures IsHex(c) && HexValue(c) == n && !(97 <= c)
  {
    if n < 10 then (48 + n) as byte else (55 + n) as byte
  }

  function EncodeOctet(c: byte): bytes {
    if Unreserved(c) then [c] else [PERCENT, HexChar(c as int / 16), HexChar(c as int % 16)]
  }

  function Encoded(value: bytes): bytes {
    if value == [] then [] else EncodeOctet(value[0]) + Encoded(value[1..])
  }

  function Decoded(value: bytes): bytes {
    if value == [] then []
    else if value[0] == PERCENT && |value| >= 3 then [StrtolOctet(value[1..3])] + Decoded(value[3..])
    else if value[0] == PLUS then [SPACE] + Decoded(value[1..])
    else [value[0]] + Decoded(value[1..])
  }

  method Encode(value: bytes) returns (result: bytes)
    ensures result == Encoded(value)
  {
    result := [];
    for i := 0 to |value|
      invariant result + Encoded(value[i..]) == Encoded(value)
    {
      var c := value[i];
      EncodedFrom(value, i);
      Regroup(result, EncodeOctet(c), Encoded(value[i + 1..]));
      if !((c >= 48 && c <= 57) || (c >= 65 && c <= 90) || (c >= 97 && c <= 122)
           || c == 45 || c == 46 || c == 95 || c == 126) {
        result := result + [PERCENT, HexChar(c as int / 16), HexChar(c as int % 16)];
      } else {
        result := result + [c];
      }
    }
    assert value[|value|..] == [];
  }

  lemma EncodedFrom(value: bytes, i: nat)
    requires i < |value|
    ensures Encoded(value[i..]) == EncodeOctet(value[i]) + Encoded(value[i + 1..])
  {
  }

  /** What decoding makes of the character at `i`, and how far it gets. */
  function DecodeAt(value: bytes, i: nat): (r: (byte, nat))
    requires i < |value|
    ensures i < r.1 <= |value|
  {
    if value[i] == PERCENT && i + 2 < |value| then (StrtolOctet(value[i + 1..i + 3]), i + 3)
    else if value[i] == PLUS then (SPACE, i + 1)
    else (value[i], i + 1)
  }

  lemma DecodedFrom(value: bytes, i: nat)
    requires i < |value|
    ensures Decoded(value[i..]) == [DecodeAt(value, i).0] + Decoded(value[DecodeAt(value, i).1..])
  {
    assert value[i..][1..] == value[i + 1..];
    if i + 2 < |value| {
      assert value[i..][1..3] == value[i + 1..i + 3] && value[i..][3..] == value[i + 3..];
    }
  }

  method Decode(value: bytes) returns (result: bytes)
    ensures result == Decoded(value)
  {
    result := [];
    var i := 0;
    while i < |value|
      invariant 0 <= i <= |value|
      invariant result + Decoded(value[i..]) == Decoded(value)
    {
      var c := value[i];
      DecodedFrom(value, i);
      Regroup(result, [DecodeAt(value, i).0], Decoded(value[DecodeAt(value, i).1..]));
      if c == PERCENT && i + 2 < |value| {
        result := result + [StrtolOctet(value[i + 1..i + 3])];
        i := i + 2;
      } else if c == PLUS {
        result := result + [SPACE];
      } else {
        result := result + [c];
      }
      i := i + 1;
    }
    assert value[|value|..] == [];
  }

  // ----- decoding undoes encoding

  lemma DecodeOneOctet(c: byte, rest: bytes)
    ensures Decoded(EncodeOctet(c) + rest) == [c] + Decoded(rest)
  {
    var x := EncodeOctet(c) + rest;
    if Unreserved(c) {
      assert x[1..] == rest;
    } else {
      var a, b := HexChar(c as int / 16), HexChar(c as int % 16);
      assert x[1..3] == [a, b] && x[3..] == rest;
      TwoDigits(a, b);
    }
  }

  lemma {:induction false} DecodeEncode(value: bytes)
    ensures Decoded(Encoded(value)) == value
  {
    if value != [] {
      DecodeOneOctet(value[0], Encoded(value[1..]));
      DecodeEncode(value[1..]);
    }
  }

  // ----- what encoding can produce

  /** Unreserved characters, and percent triplets (section 2.1 of RFC 3986) in upper case
      of octets that are not unreserved. */
  predicate Canonical(x: bytes) {
    x == []
    || (Unreserved(x[0]) && Canonical(x[1..]))
    || (x[0] == PERCENT && |x| >= 3 && IsHex(x[1]) && x[1] < 97 && IsHex(x[2]) && x[2] < 97
        && !Unreserved(StrtolOctet(x[1..3])) && Canonical(x[3..]))
  }

  lemma {:induction false} EncodedIsCanonical(value: bytes)
    ensures Canonical(Encoded(value))
  {
    if value != [] {
      var c, rest := value[0], Encoded(value[1..]);
      var x := EncodeOctet(c) + rest;
      EncodedIsCanonical(value[1..]);
      if Unreserved(c) {
        assert x[1..] == rest;
      } else {
        var a, b := HexChar(c as int / 16), HexChar(c as int % 16);
        assert x[1..3] == [a, b] && x[3..] == rest;
        TwoDigits(a, b);
      }
    }
  }

  lemma HexCharOfValue(c: byte)
    requires IsHex(c) && c < 97
    ensures HexChar(HexValue(c)) == c
  {
  }

  lemma TripletEncodes(a: byte, b: byte)
    requires IsHex(a) && a < 97 && IsHex(b) && b < 97 && !Unreserved(StrtolOctet([a, b]))
    ensures EncodeOctet(StrtolOctet([a, b])) == [PERCENT, a, b]
  {
    var c := StrtolOctet([a, b]) as int;
    TwoDigits(a, b);
    assert c / 16 == HexValue(a) && c % 16 == HexValue(b);
    HexCharOfValue(a);
    HexCharOfValue(b);
  }

  lemma EncodedCons(c: byte, rest: bytes)
    ensures Encoded([c] + rest) == EncodeOctet(c) + Encoded(rest)
  {
  }

  /** Every canonical string is the encoding of what it decodes to, so encoding is a
      bijection between octet strings and canonical strings. */
  lemma {:induction false} EncodeDecode(x: bytes)
    requires Canonical(x)
    ensures Encoded(Decoded(x)) == x
  {
    if x != [] {
      if Unreserved(x[0]) {
        EncodeDecode(x[1..]);
        EncodedCons(x[0], Decoded(x[1..]));
        assert x == [x[0]] + x[1..];
      } else {
        EncodeDecode(x[3..]);
        assert x[1..3] == [x[1], x[2]];
        TripletEncodes(x[1], x[2]);
        EncodedCons(StrtolOctet(x[1..3]), Decoded(x[3..]));
        assert x == [PERCENT, x[1], x[2]] + x[3..];
      }
    }
  }

  function ReservedCount(value: bytes): nat {
    if value == [] then 0 else (if Unreserved(value[0]) then 0 else 1) + ReservedCount(value[1..])
  }

  lemma {:induction false} EncodedLength(value: bytes)
    ensures |Encoded(value)| == |value| + 2 * ReservedCount(value)
    ensures |value| <= |Encoded(value)| <= 3 * |value|
  {
    if value != [] {
      EncodedLength(value[1..]);
    }
  }

  /** No delimiter of a query string survives encoding. */
  lemma {:induction false} EncodedAlphabet(value: bytes, i: nat)
    requires i < |Encoded(value)|
    ensures Unreserved(Encoded(value)[i]) || Encoded(value)[i] == PERCENT
  {
    var first := EncodeOctet(value[0]);
    if i >= |first| {
      EncodedAlphabet(value[1..], i - |first|);
    }
  }

  // ----- the same in terms of characters

  /** A letter, a digit or one of four marks. */
  predicate InAlphabet(c: char) {
    c in "ABCDEFGHIJKLMNOPQRSTUVWXYZ" || c in "abcdefghijklmnopqrstuvwxyz" || c in "0123456789" || c in "-._~"
  }

  /** Unreserved characters stay, others become a percent sign and two upper-case digits. */
  lemma EncodedCharacter(c: byte, rest: bytes)
    ensures Encoded([c] + rest) ==
      (if InAlphabet(c as char) then [c]
       else ['%' as byte, UPPER[c as int / 16] as byte, UPPER[c as int % 16] as byte]) + Encoded(rest)
  {
    EncodedCons(c, rest);
    AlphabetIsUnreserved(c);
    UpperDigit(c as int / 16);
    UpperDigit(c as int % 16);
  }

  lemma AlphabetIsUnreserved(c: byte)
    ensures Unreserved(c) <==> InAlphabet(c as char)
  {
  }

  lemma UpperDigit(d: nat)
    requires d < 16
    ensures HexChar(d) == UPPER[d] as byte
  {
  }

  /** A percent sign and two digits, of either case, are the octet that the digits spell. */
  lemma DecodedTriplet(digits: bytes, n: nat, rest: bytes)
    requires Spells(digits, n) && |digits| == 2
    ensures n < 256 && Decoded(['%' as byte] + digits + rest) == [n as byte] + Decoded(rest)
  {
    StrtolReads(digits, n);
    var s := ['%' as byte] + digits + rest;
    assert s[1..3] == digits && s[3..] == rest;
  }

  /** A percent sign without two characters after it stands for itself. */
  lemma DecodedShort(rest: bytes)
    requires |rest| < 2
    ensures Decoded(['%' as byte] + rest) == ['%' as byte] + Decoded(rest)
  {
    assert (['%' as byte] + rest)[1..] == rest;
  }

  /** Without percent signs, every plus becomes a space and nothing else changes. */
  lemma {:induction false} DecodedPlus(s: bytes)
    requires '%' as byte !in s
    ensures |Decoded(s)| == |s|
    ensures forall i :: 0 <= i < |s| ==> Decoded(s)[i] == if s[i] == '+' as byte then ' ' as byte else s[i]
  {
    if s != [] {
      DecodedPlus(s[1..]);
    }
  }
}

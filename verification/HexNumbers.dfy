/**
 The C library's reading of hexadecimal numbers, `strtol` and `strtoul` with base 16, as
 percent decoding and the chunk reader use it.
 */
module HexNumbers {
  import opened Bytes

  const MINUS: byte := 45
  const PLUS: byte := 43
  const ZERO: byte := 48

  predicate IsSpace(c: byte) {
    c == SPACE || 9 <= c <= 13
  }

  predicate IsHex(c: byte) {
    48 <= c <= 57 || 65 <= c <= 70 || 97 <= c <= 102
  }

  function HexValue(c: byte): (v: nat)
    requires IsHex(c)
    ensures v < 16
  {
    if c <= 57 then c as int - 48 else if c <= 70 then c as int - 55 else c as int - 87
  }

  /** The part of a string that `c_str()` shows to the C library. */
  function UntilNul(s: bytes): bytes {
    if s == [] || s[0] == 0 then [] else [s[0]] + UntilNul(s[1..])
  }

  function DropSpaces(s: bytes): bytes {
    if s != [] && IsSpace(s[0]) then DropSpaces(s[1..]) else s
  }

  /** How many hexadecimal digits `s` starts with. */
  function HexPrefix(s: bytes): (n: nat)
    ensures n <= |s| && forall i :: 0 <= i < n ==> IsHex(s[i])
  {
    if s == [] || !IsHex(s[0]) then 0 else 1 + HexPrefix(s[1..])
  }

  function HexNumber(digits: bytes): nat
    requires forall i :: 0 <= i < |digits| ==> IsHex(digits[i])
  {
    if digits == [] then 0
    else 16 * HexNumber(digits[..|digits| - 1]) + HexValue(digits[|digits| - 1])
  }

  datatype Parsed = NoConversion | Number(negative: bool, magnitude: nat)

  predicate HasSign(s: bytes) {
    s != [] && (s[0] == MINUS || s[0] == PLUS)
  }

  function DropSign(s: bytes): bytes {
    if HasSign(s) then s[1..] else s
  }

  /** 0x or 0X counts as a prefix only before a digit. */
  function DropPrefix(s: bytes): bytes {
    if |s| >= 3 && s[0] == ZERO && (s[1] == 120 || s[1] == 88) && IsHex(s[2]) then s[2..] else s
  }

  /** White space, an optional sign, an optional 0x, and digits; the rest is ignored. */
  function ParseHex(s: bytes): Parsed {
    var signed := DropSpaces(UntilNul(s));
    var number := DropPrefix(DropSign(signed));
    var n := HexPrefix(number);
    if n == 0 then NoConversion
    else Number(HasSign(signed) && signed[0] == MINUS, HexNumber(number[..n]))
  }

  const ULONG_RANGE: nat := 0x1_0000_0000_0000_0000

  datatype Stoul = InvalidArgument | OutOfRange | Value(value: nat)

  /** `std::stoul(s, 0, 16)` with a 64-bit unsigned long. */
  function Stoul16(s: bytes): Stoul {
    match ParseHex(s)
    case NoConversion => InvalidArgument
    case Number(negative, magnitude) =>
      if magnitude >= ULONG_RANGE then OutOfRange
      else if negative && magnitude > 0 then Value(ULONG_RANGE - magnitude)
      else Value(magnitude)
  }

  /** `static_cast<char>(strtol(s, nullptr, 16))`, for strings too short to overflow a long. */
  function StrtolOctet(s: bytes): byte {
    match ParseHex(s)
    case NoConversion => 0
    case Number(negative, magnitude) =>
      var v: int := if negative then -(magnitude as int) else magnitude;
      (v % 256) as byte
  }

  lemma {:induction false} HexPrefixStops(digits: bytes, rest: bytes)
    requires forall i :: 0 <= i < |digits| ==> IsHex(digits[i])
    requires rest != [] ==> !IsHex(rest[0])
    ensures HexPrefix(digits + rest) == |digits|
  {
    if digits == [] {
      assert digits + rest == rest;
    } else {
      assert (digits + rest)[1..] == digits[1..] + rest;
      HexPrefixStops(digits[1..], rest);
    }
  }

  // ----- what is read, in terms of characters

  const LOWER := "0123456789abcdef"
  const UPPER := "0123456789ABCDEF"

  predicate IsDigit(c: byte, d: nat)
    requires d < 16
  {
    c == LOWER[d] as byte || c == UPPER[d] as byte
  }

  /** `s` writes `n` to base 16, in any mix of cases and with any number of leading zeros. */
  predicate Spells(s: bytes, n: nat) {
    s != [] && IsDigit(s[|s| - 1], n % 16) && if |s| == 1 then n < 16 else Spells(s[..|s| - 1], n / 16)
  }

  predicate StartsWithDigit(s: bytes) {
    s != [] && exists d: nat | d < 16 :: IsDigit(s[0], d)
  }

  predicate IsBlank(s: bytes) {
    forall i :: 0 <= i < |s| ==> s[i] as char in " \t\n\r\U{b}\U{c}"
  }

  lemma DigitValue(c: byte, d: nat)
    requires d < 16 && IsDigit(c, d)
    ensures IsHex(c) && HexValue(c) == d
  {
  }

  lemma DigitExists(c: byte)
    requires IsHex(c)
    ensures IsDigit(c, HexValue(c))
  {
  }

  lemma {:induction false} SpelledNumber(s: bytes, n: nat)
    requires Spells(s, n)
    ensures (forall i :: 0 <= i < |s| ==> IsHex(s[i])) && HexNumber(s) == n
  {
    DigitValue(s[|s| - 1], n % 16);
    if |s| == 1 {
      assert s[..0] == [];
    } else {
      SpelledNumber(s[..|s| - 1], n / 16);
    }
  }

  predicate IsSign(s: bytes) {
    s == [] || s == Text("+") || s == Text("-")
  }

  predicate IsPrefix(s: bytes) {
    s == [] || s == Text("0x") || s == Text("0X")
  }

  predicate StartsWithPrefix(s: bytes) {
    |s| >= 2 && s[..2] != [] && IsPrefix(s[..2]) && StartsWithDigit(s[2..])
  }

  lemma {:induction false} UntilNulAppend(x: bytes, y: bytes)
    requires 0 !in x
    ensures UntilNul(x + y) == x + UntilNul(y)
  {
    if x == [] {
      assert x + y == y;
    } else {
      assert (x + y)[1..] == x[1..] + y;
      UntilNulAppend(x[1..], y);
    }
  }

  /** What remains starts as before, if it starts at all. */
  lemma UntilNulStart(s: bytes)
    ensures |UntilNul(s)| <= |s|
    ensures forall i :: 0 <= i < |UntilNul(s)| ==> UntilNul(s)[i] == s[i]
  {
  }

  lemma {:induction false} DropBlank(blank: bytes, s: bytes)
    requires IsBlank(blank) && (s != [] ==> !IsSpace(s[0]))
    ensures DropSpaces(blank + s) == s && 0 !in blank
  {
    if blank == [] {
      assert blank + s == s;
    } else {
      assert (blank + s)[1..] == blank[1..] + s;
      assert blank[0] as char in " \t\n\r\U{b}\U{c}";
      DropBlank(blank[1..], s);
    }
  }

  lemma DropsSign(sign: bytes, s: bytes)
    requires IsSign(sign) && s != [] && IsHex(s[0])
    ensures DropSign(sign + s) == s && (HasSign(sign + s) && (sign + s)[0] == MINUS <==> sign == Text("-"))
    ensures !IsSpace((sign + s)[0]) && 0 !in sign
  {
    if sign == [] {
      assert sign + s == s;
    } else {
      assert (sign + s)[1..] == s;
    }
  }

  lemma DropsPrefix(prefix: bytes, s: bytes)
    requires IsPrefix(prefix) && s != [] && IsHex(s[0])
    requires prefix == [] ==> !StartsWithPrefix(s)
    ensures DropPrefix(prefix + s) == s
    ensures IsHex((prefix + s)[0]) && 0 !in prefix
  {
    if prefix == [] {
      assert prefix + s == s;
      KeepsNoPrefix(s);
    } else {
      DropsX(prefix, s);
    }
  }

  lemma KeepsNoPrefix(s: bytes)
    requires !StartsWithPrefix(s)
    ensures DropPrefix(s) == s
  {
    if |s| >= 3 && IsHex(s[2]) {
      DigitExists(s[2]);
      assert s[2..][0] == s[2];
      assert s[..2] == [s[0], s[1]];
    }
  }

  lemma DropsX(prefix: bytes, s: bytes)
    requires IsPrefix(prefix) && prefix != [] && s != [] && IsHex(s[0])
    ensures DropPrefix(prefix + s) == s && IsHex((prefix + s)[0]) && 0 !in prefix
  {
    assert prefix == [48, 120] || prefix == [48, 88];
    assert (prefix + s)[2..] == s;
  }

  /** White space, a sign and 0x are accepted, what follows the digits is ignored, and the
      number is the one that the digits spell. */
  lemma ParseSpelled(blank: bytes, sign: bytes, prefix: bytes, digits: bytes, rest: bytes, n: nat)
    requires IsBlank(blank) && IsSign(sign) && IsPrefix(prefix) && Spells(digits, n)
    requires !StartsWithDigit(rest) && (prefix == [] ==> !StartsWithPrefix(digits + rest))
    ensures ParseHex(blank + (sign + (prefix + (digits + rest)))) == Number(sign == Text("-"), n)
  {
    SpelledNumber(digits, n);
    var r := UntilNul(rest);
    RestStops(digits, rest, prefix);
    DropsPrefix(prefix, digits + r);
    DropsSign(sign, prefix + (digits + r));
    DropBlank(blank, sign + (prefix + (digits + r)));
    UntilNulAppend(digits, rest);
    UntilNulAppend(prefix, digits + rest);
    UntilNulAppend(sign, prefix + (digits + rest));
    UntilNulAppend(blank, sign + (prefix + (digits + rest)));
    HexPrefixStops(digits, r);
    assert (digits + r)[..|digits|] == digits;
  }

  lemma RestStops(digits: bytes, rest: bytes, prefix: bytes)
    requires digits != [] && !StartsWithDigit(rest) && (prefix == [] ==> !StartsWithPrefix(digits + rest))
    ensures UntilNul(rest) != [] ==> !IsHex(UntilNul(rest)[0])
    ensures prefix == [] ==> !StartsWithPrefix(digits + UntilNul(rest))
  {
    var r := UntilNul(rest);
    UntilNulStart(rest);
    if r != [] && IsHex(r[0]) {
      DigitExists(r[0]);
    }
    var s, t := digits + r, digits + rest;
    assert forall i :: 0 <= i < |s| ==> s[i] == t[i];
    if StartsWithPrefix(s) {
      assert s[..2] == t[..2] && s[2..][0] == t[2..][0];
    }
  }

  /** `std::stoul` with base 16, for every way to write every number. */
  lemma StoulReads(blank: bytes, sign: bytes, prefix: bytes, digits: bytes, rest: bytes, n: nat)
    requires IsBlank(blank) && IsSign(sign) && IsPrefix(prefix) && Spells(digits, n)
    requires !StartsWithDigit(rest) && (prefix == [] ==> !StartsWithPrefix(digits + rest))
    ensures Stoul16(blank + (sign + (prefix + (digits + rest)))) ==
      if n >= 18446744073709551616 then OutOfRange
      else if sign == Text("-") && n > 0 then Value(18446744073709551616 - n)
      else Value(n)
  {
    ParseSpelled(blank, sign, prefix, digits, rest, n);
  }

  lemma SpacesAreBlank()
    ensures forall c: byte :: IsSpace(c) ==> IsBlank([c])
  {
  }

  /** Without digits there is no number. */
  lemma StoulRefuses(blank: bytes, sign: bytes, rest: bytes)
    requires IsBlank(blank) && IsSign(sign) && !StartsWithDigit(rest)
    requires sign == [] && rest != [] ==> !IsBlank(rest[..1]) && !IsSign(rest[..1])
    ensures Stoul16(blank + (sign + rest)) == InvalidArgument
  {
    var r := UntilNul(rest);
    UntilNulStart(rest);
    if r != [] && IsHex(r[0]) {
      DigitExists(r[0]);
    }
    assert r != [] ==> rest[..1] == [r[0]];
    var s := sign + r;
    assert Text("+") == [43] && Text("-") == [45];
    SpacesAreBlank();
    DropBlank(blank, s);
    assert 0 !in sign;
    UntilNulAppend(sign, rest);
    UntilNulAppend(blank, sign + rest);
    assert DropSign(s) == r by {
      if sign != [] {
        assert s[1..] == r;
      }
    }
  }

  lemma SpellsOne(c: byte, d: nat)
    requires d < 16 && IsDigit(c, d)
    ensures Spells([c], d)
  {
  }

  lemma SpellsMore(init: bytes, n: nat, c: byte, d: nat)
    requires Spells(init, n) && d < 16 && IsDigit(c, d)
    ensures Spells(init + [c], 16 * n + d)
  {
    var s, m := init + [c], 16 * n + d;
    assert m / 16 == n && m % 16 == d;
    assert s[..|s| - 1] == init;
  }

  lemma {:induction false} HexIsSpelled(digits: bytes)
    requires digits != [] && forall i :: 0 <= i < |digits| ==> IsHex(digits[i])
    ensures Spells(digits, HexNumber(digits))
  {
    var init, last := digits[..|digits| - 1], digits[|digits| - 1];
    DigitExists(last);
    if init == [] {
      SpellsOne(last, HexValue(last));
      assert digits == [last];
    } else {
      HexIsSpelled(init);
      LastDigit(init, HexNumber(init), last, digits);
    }
  }

  lemma LastDigit(init: bytes, n: nat, last: byte, digits: bytes)
    requires Spells(init, n) && IsHex(last) && digits == init + [last]
    ensures Spells(digits, 16 * n + HexValue(last))
  {
    DigitExists(last);
    SpellsMore(init, n, last, HexValue(last));
  }

  lemma SecondIsX(s: bytes)
    requires StartsWithPrefix(s)
    ensures s[1] == 'x' as byte || s[1] == 'X' as byte
  {
    assert s[..2][1] == s[1];
  }

  lemma NoPrefix(digits: bytes, rest: bytes)
    requires digits != [] && forall i :: 0 <= i < |digits| ==> IsHex(digits[i])
    requires rest != [] ==> rest[0] != 'x' as byte && rest[0] != 'X' as byte
    ensures !StartsWithPrefix(digits + rest)
  {
    if StartsWithPrefix(digits + rest) {
      SecondIsX(digits + rest);
    }
  }

  /** A plain hexadecimal number, followed by anything that cannot extend it. */
  lemma ReadPlain(digits: bytes, rest: bytes, n: nat)
    requires Spells(digits, n) && !StartsWithDigit(rest)
    requires rest != [] ==> rest[0] != 'x' as byte && rest[0] != 'X' as byte
    ensures ParseHex(digits + rest) == Number(false, n)
    ensures Stoul16(digits + rest) == if n < ULONG_RANGE then Value(n) else OutOfRange
  {
    SpelledNumber(digits, n);
    NoPrefix(digits, rest);
    ParseSpelled([], [], [], digits, rest, n);
    var s := digits + rest;
    assert [] + ([] + ([] + s)) == s;
  }

  /** Two digits, as `strtol` reads them for percent decoding. */
  lemma StrtolReads(digits: bytes, n: nat)
    requires Spells(digits, n) && |digits| == 2
    ensures StrtolOctet(digits) as int == n
  {
    ReadPlain(digits, [], n);
    assert digits + [] == digits;
    OctetOf(digits, false, n);
    BelowOctet(digits, n);
  }

  lemma BelowOctet(digits: bytes, n: nat)
    requires Spells(digits, n) && |digits| == 2
    ensures n < 256
  {
    assert |digits[..1]| == 1 && Spells(digits[..1], n / 16);
  }

  /** `strtol` and the cast to an octet in general: a negative number counts from 256 down, and
      without digits the result is 0. */
  lemma StrtolReadsSigned(blank: bytes, sign: bytes, prefix: bytes, digits: bytes, rest: bytes, n: nat)
    requires IsBlank(blank) && IsSign(sign) && IsPrefix(prefix) && Spells(digits, n)
    requires !StartsWithDigit(rest) && (prefix == [] ==> !StartsWithPrefix(digits + rest))
    ensures StrtolOctet(blank + (sign + (prefix + (digits + rest)))) as int == (if sign == Text("-") then -(n as int) else n) % 256
  {
    ParseSpelled(blank, sign, prefix, digits, rest, n);
    OctetOf(blank + (sign + (prefix + (digits + rest))), sign == Text("-"), n);
  }

  lemma OctetOf(s: bytes, negative: bool, n: nat)
    requires ParseHex(s) == Number(negative, n)
    ensures StrtolOctet(s) as int == (if negative then -(n as int) else n) % 256
  {
  }

  lemma StrtolRefuses(blank: bytes, sign: bytes, rest: bytes)
    requires IsBlank(blank) && IsSign(sign) && !StartsWithDigit(rest)
    requires sign == [] && rest != [] ==> !IsBlank(rest[..1]) && !IsSign(rest[..1])
    ensures StrtolOctet(blank + (sign + rest)) == 0
  {
    StoulRefuses(blank, sign, rest);
  }

  lemma TwoDigits(a: byte, b: byte)
    requires IsHex(a) && IsHex(b)
    ensures StrtolOctet([a, b]) as int == 16 * HexValue(a) + HexValue(b)
  {
    DigitExists(a);
    DigitExists(b);
    SpellsOne(a, HexValue(a));
    SpellsMore([a], HexValue(a), b, HexValue(b));
    assert [a] + [b] == [a, b];
    StrtolReads([a, b], 16 * HexValue(a) + HexValue(b));
  }
}

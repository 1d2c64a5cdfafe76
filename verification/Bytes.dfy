/** Octets, optional values, and lines of text, shared by the other modules. */
module Bytes {
  newtype byte = x: int | 0 <= x < 256

  type bytes = seq<byte>

  datatype Option<+T> = None | Some(value: T)

  const LF: byte := 10
  const CR: byte := 13
  const SPACE: byte := 32
  const CRLF: bytes := [13, 10]

  function Min(a: int, b: int): int {
    if a <= b then a else b
  }

  function Max(a: int, b: int): int {
    if a >= b then a else b
  }

  /** Concatenation is associative, for use where the verifier should not search for it. */
  lemma Regroup<T>(a: seq<T>, b: seq<T>, c: seq<T>)
    ensures a + b + c == a + (b + c)
  {
  }

  lemma OneLonger<T>(s: seq<T>, i: nat)
    requires i < |s|
    ensures s[..i] + [s[i]] == s[..i + 1]
  {
  }

  function Concat(parts: seq<bytes>): bytes {
    if parts == [] then [] else parts[0] + Concat(parts[1..])
  }

  /** Characters of a literal, all of them ASCII. */
  function Text(s: string): (t: bytes)
    requires forall i :: 0 <= i < |s| ==> s[i] < 128 as char
    ensures |t| == |s| && forall i :: 0 <= i < |s| ==> t[i] == s[i] as byte
  {
    seq(|s|, i requires 0 <= i < |s| => s[i] as byte)
  }

  /** The first position of `c` in `s`, or |s|. */
  function IndexOf(s: bytes, c: byte): (i: nat)
    ensures i <= |s| && c !in s[..i] && (i < |s| ==> s[i] == c)
  {
    if s == [] || s[0] == c then 0 else 1 + IndexOf(s[1..], c)
  }

  lemma {:induction false} IndexIs(s: bytes, c: byte, i: nat)
    requires i <= |s| && c !in s[..i] && (i < |s| ==> s[i] == c)
    ensures IndexOf(s, c) == i
  {
    if i > 0 {
      assert s[0] == s[..i][0] && s[1..][..i - 1] == s[..i][1..];
      IndexIs(s[1..], c, i - 1);
    }
  }

  // ----- lines

  function FirstLine(input: bytes): bytes {
    input[..IndexOf(input, LF)]
  }

  function AfterLine(input: bytes): bytes {
    var i := IndexOf(input, LF);
    if i == |input| then [] else input[i + 1..]
  }

  /** The first line of printed text, and what follows it. */
  lemma LineSplits(line: bytes, rest: bytes)
    requires LF !in line
    ensures FirstLine(line + [LF] + rest) == line && AfterLine(line + [LF] + rest) == rest
  {
    var input := line + [LF] + rest;
    assert input[..|line|] == line;
    IndexIs(input, LF, |line|);
  }
}

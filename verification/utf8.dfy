/**
 Bytes and the UTF-8 encoding that `str.encode()` applies to a password
 before it is hashed. A Dafny `char` is a Unicode scalar value, so every
 string can be encoded (Python's lone surrogates cannot occur here).
 */
module Utf8 {
  import opened Wrappers

  newtype byte = x: int | 0 <= x < 256

  /** Unicode scalar values: code points that are not surrogates. */
  predicate IsScalar(n: int) {
    (0 <= n < 0xD800) || (0xE000 <= n <= 0x10FFFF)
  }

  /** Number of bytes UTF-8 spends on scalar value `n`. */
  function EncodedLength(n: int): nat {
    if n < 0x80 then 1
    else if n < 0x800 then 2
    else if n < 0x10000 then 3
    else 4
  }

  function EncodeChar(c: char): (r: seq<byte>)
    ensures |r| == EncodedLength(c as int)
  {
    var n := c as int;
    if n < 0x80 then
      [n as byte]
    else if n < 0x800 then
      [(0xC0 + n / 64) as byte, (0x80 + n % 64) as byte]
    else if n < 0x10000 then
      [(0xE0 + n / 4096) as byte, (0x80 + (n / 64) % 64) as byte, (0x80 + n % 64) as byte]
    else
      [(0xF0 + n / 262144) as byte, (0x80 + (n / 4096) % 64) as byte,
       (0x80 + (n / 64) % 64) as byte, (0x80 + n % 64) as byte]
  }

  /** `s.encode()`: the concatenation of the encodings of its characters. */
  function Encode(s: string): (r: seq<byte>)
    ensures |s| <= |r| <= 4 * |s|
  {
    if s == [] then [] else EncodeChar(s[0]) + Encode(s[1..])
  }

  /** Length of the sequence announced by a lead byte; 0 when `b` cannot lead one. */
  function SequenceLength(b: byte): nat {
    if b < 0x80 then 1
    else if 0xC0 <= b < 0xE0 then 2
    else if 0xE0 <= b < 0xF0 then 3
    else if 0xF0 <= b < 0xF8 then 4
    else 0
  }

  predicate IsContinuation(b: byte) {
    0x80 <= b < 0xC0
  }

  /** The payload bits of one byte sequence, lead byte first. */
  function ScalarOf(b: seq<byte>): int
    requires 1 <= |b| <= 4
  {
    if |b| == 1 then b[0] as int
    else if |b| == 2 then (b[0] as int - 0xC0) * 64 + (b[1] as int - 0x80)
    else if |b| == 3 then
      (b[0] as int - 0xE0) * 4096 + (b[1] as int - 0x80) * 64 + (b[2] as int - 0x80)
    else
      (b[0] as int - 0xF0) * 262144 + (b[1] as int - 0x80) * 4096
      + (b[2] as int - 0x80) * 64 + (b[3] as int - 0x80)
  }

  /**
   Strict UTF-8 decoding: rejects stray continuation bytes, truncated
   sequences, overlong forms, surrogates and values beyond U+10FFFF.
   */
  function Decode(b: seq<byte>): (r: Option<string>)
    decreases |b|
  {
    if b == [] then Some([])
    else
      var n := SequenceLength(b[0]);
      if n == 0 || |b| < n then None
      else if exists k :: 1 <= k < n && !IsContinuation(b[k]) then None
      else
        var v := ScalarOf(b[..n]);
        if !IsScalar(v) || EncodedLength(v) != n then None
        else
          match Decode(b[n..])
          case None => None
          case Some(rest) => Some([v as char] + rest)
  }

  lemma EncodeCharWellFormed(c: char)
    ensures var e := EncodeChar(c);
      && SequenceLength(e[0]) == |e|
      && (forall k :: 1 <= k < |e| ==> IsContinuation(e[k]))
      && ScalarOf(e) == c as int
  {
    var n := c as int;
    if n < 0x80 {
    } else if n < 0x800 {
      assert n == (n / 64) * 64 + n % 64;
    } else if n < 0x10000 {
      assert n / 64 == (n / 4096) * 64 + (n / 64) % 64;
      assert n == (n / 64) * 64 + n % 64;
    } else {
      assert n / 4096 == (n / 262144) * 64 + (n / 4096) % 64;
      assert n / 64 == (n / 4096) * 64 + (n / 64) % 64;
      assert n == (n / 64) * 64 + n % 64;
    }
  }

  /** Decoding undoes encoding. */
  lemma {:induction false} DecodeEncode(s: string)
    ensures Decode(Encode(s)) == Some(s)
  {
    if s != [] {
      var e := EncodeChar(s[0]);
      var b := Encode(s);
      EncodeCharWellFormed(s[0]);
      assert b == e + Encode(s[1..]);
      assert b[0] == e[0];
      assert b[..|e|] == e;
      assert b[|e|..] == Encode(s[1..]);
      assert forall k :: 1 <= k < |e| ==> b[k] == e[k];
      DecodeEncode(s[1..]);
      assert [s[0]] + s[1..] == s;
    }
  }

  /** Distinct passwords reach the hash as distinct byte strings. */
  lemma EncodeInjective(s: string, t: string)
    requires Encode(s) == Encode(t)
    ensures s == t
  {
    DecodeEncode(s);
    DecodeEncode(t);
  }

  /** ASCII passwords encode to their own code points, one byte each. */
  lemma {:induction false} EncodeAscii(s: string)
    requires forall i :: 0 <= i < |s| ==> s[i] as int < 0x80
    ensures |Encode(s)| == |s|
    ensures forall i :: 0 <= i < |s| ==> Encode(s)[i] as int == s[i] as int
  {
    if s != [] {
      EncodeAscii(s[1..]);
    }
  }
}

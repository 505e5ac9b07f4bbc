/** The exporter's UTF-8 check accepts exactly the concatenations of encoded Unicode scalar values. */
module Utf8Scalars {
  import opened Wrappers
  import opened Utf8

  /** A code point that is not a surrogate. */
  predicate IsScalarValue(cp: nat) {
    cp < 0xD800 || 0xE000 <= cp < 0x11_0000
  }

  /** The table of section 3 of RFC 3629. */
  function EncodeScalar(cp: nat): (bytes: seq<byte>)
    requires IsScalarValue(cp)
    ensures 1 <= |bytes| <= 4
  {
    if cp < 0x80 then [cp]
    else if cp < 0x800 then [0xC0 + cp / 64, 0x80 + cp % 64]
    else if cp < 0x1_0000 then [0xE0 + cp / 4096, 0x80 + cp / 64 % 64, 0x80 + cp % 64]
    else [0xF0 + cp / 262144, 0x80 + cp / 4096 % 64, 0x80 + cp / 64 % 64, 0x80 + cp % 64]
  }

  predicate AllScalars(cps: seq<nat>) {
    forall i :: 0 <= i < |cps| ==> IsScalarValue(cps[i])
  }

  function EncodeAll(cps: seq<nat>): seq<byte>
    requires AllScalars(cps)
  {
    if cps == [] then [] else EncodeScalar(cps[0]) + EncodeAll(cps[1..])
  }

  // ---- an encoded value is one character ----------------------------------------------------------------

  /** The four bytes of a large value. */
  lemma LargeDigits(cp: nat)
    requires 0x1_0000 <= cp < 0x11_0000
    ensures cp / 262144 <= 4
    ensures cp / 262144 == 0 ==> cp / 4096 % 64 >= 16
    ensures cp / 262144 == 4 ==> cp / 4096 % 64 < 16
  {
    var top, next := cp / 4096 / 64, cp / 4096;
    assert next == 64 * top + next % 64;
    assert cp / 262144 == top by {
      assert cp == 4096 * next + cp % 4096;
    }
  }

  /** The three bytes of a value of the basic plane. */
  lemma MiddleDigits(cp: nat)
    requires 0x800 <= cp < 0x1_0000 && IsScalarValue(cp)
    ensures cp / 4096 <= 15
    ensures cp / 4096 == 0 ==> cp / 64 % 64 >= 32
    ensures cp / 4096 == 13 ==> cp / 64 % 64 < 32
  {
    var next := cp / 64;
    assert cp / 4096 == next / 64 by {
      assert cp == 64 * next + cp % 64;
    }
  }

  lemma ScalarIsCharacter(cp: nat, rest: seq<byte>)
    requires IsScalarValue(cp)
    ensures CharLen(EncodeScalar(cp) + rest) == |EncodeScalar(cp)|
  {
    var s := EncodeScalar(cp) + rest;
    if cp < 0x80 {
      assert s[0] == cp;
    } else if cp < 0x800 {
      assert s[0] == 0xC0 + cp / 64 && s[1] == 0x80 + cp % 64;
    } else if cp < 0x1_0000 {
      MiddleDigits(cp);
      assert s[0] == 0xE0 + cp / 4096 && s[1] == 0x80 + cp / 64 % 64 && s[2] == 0x80 + cp % 64;
    } else {
      LargeDigits(cp);
      assert s[0] == 0xF0 + cp / 262144 && s[1] == 0x80 + cp / 4096 % 64;
      assert s[2] == 0x80 + cp / 64 % 64 && s[3] == 0x80 + cp % 64;
    }
  }

  // ---- a character is an encoded value ------------------------------------------------------------------

  /** Six more bits. */
  function Join(high: nat, tail: byte): (cp: nat)
    requires IsTail(tail)
    ensures cp / 64 == high && cp % 64 == tail - 0x80
  {
    high * 64 + (tail - 0x80)
  }

  /** The value in the bits of the character at the head of `s`. */
  function DecodeScalar(s: seq<byte>): nat
    requires CharLen(s) > 0
  {
    var head: int := s[0];
    if CharLen(s) == 1 then head
    else if CharLen(s) == 2 then Join(head - 0xC0, s[1])
    else if CharLen(s) == 3 then Join(Join(head - 0xE0, s[1]), s[2])
    else Join(Join(Join(head - 0xF0, s[1]), s[2]), s[3])
  }

  lemma CharacterIsScalar(s: seq<byte>)
    requires CharLen(s) > 0
    ensures IsScalarValue(DecodeScalar(s)) && EncodeScalar(DecodeScalar(s)) == s[..CharLen(s)]
  {
    var n, cp := CharLen(s), DecodeScalar(s);
    if n == 3 {
      assert cp / 64 / 64 == s[0] - 0xE0;
      assert cp / 4096 == cp / 64 / 64;
    } else if n == 4 {
      assert cp / 64 / 64 / 64 == s[0] - 0xF0;
      assert cp / 4096 == cp / 64 / 64 && cp / 262144 == cp / 64 / 64 / 64;
    }
  }

  // ---- strings ------------------------------------------------------------------------------------------

  lemma {:induction false} EncodedIsValid(cps: seq<nat>)
    requires AllScalars(cps)
    ensures Utf8Valid(EncodeAll(cps))
  {
    hide CharLen, EncodeScalar;
    if cps != [] {
      EncodedIsValid(cps[1..]);
      var head, rest := EncodeScalar(cps[0]), EncodeAll(cps[1..]);
      ScalarIsCharacter(cps[0], rest);
      assert (head + rest)[|head|..] == rest;
    }
  }

  lemma {:induction false} ValidIsEncoded(s: seq<byte>) returns (cps: seq<nat>)
    requires Utf8Valid(s)
    ensures AllScalars(cps) && EncodeAll(cps) == s
  {
    hide CharLen, EncodeScalar, DecodeScalar;
    if s == [] {
      cps := [];
    } else {
      var n := CharLen(s);
      var rest := ValidIsEncoded(s[n..]);
      CharacterIsScalar(s);
      cps := [DecodeScalar(s)] + rest;
      assert cps[1..] == rest;
      assert s == s[..n] + s[n..];
    }
  }

  ghost predicate IsEncoded(s: seq<byte>) {
    exists cps :: AllScalars(cps) && EncodeAll(cps) == s
  }

  /** A byte string is accepted exactly when it is a list of Unicode scalar values, each encoded by the table. */
  lemma ValidExactly(s: seq<byte>)
    ensures Utf8Valid(s) <==> IsEncoded(s)
  {
    if Utf8Valid(s) {
      var cps := ValidIsEncoded(s);
    }
    if IsEncoded(s) {
      var cps :| AllScalars(cps) && EncodeAll(cps) == s;
      EncodedIsValid(cps);
    }
  }
}

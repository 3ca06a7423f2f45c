/**
  The UTF-8 byte view of a string: what `str::as_bytes` hands to the hasher and
  what `str::len` counts. Decode is the partner that makes the encoding
  one-to-one.
*/
module Utf8 {
  import opened Wrappers

  newtype byte = x: int | 0 <= x < 256

  /** Number of bytes UTF-8 uses for one scalar value. */
  function Width(c: char): (n: nat)
    ensures 1 <= n <= 4
    ensures n == 1 <==> c as int < 0x80
  {
    if c as int < 0x80 then 1
    else if c as int < 0x800 then 2
    else if c as int < 0x10000 then 3
    else 4
  }

  /** The UTF-8 bytes of one character. */
  function EncodeChar(c: char): (b: seq<byte>)
    ensures |b| == Width(c)
  {
    var v := c as int;
    if v < 0x80 then [v as byte]
    else if v < 0x800 then [(0xC0 + v / 64) as byte, (0x80 + v % 64) as byte]
    else if v < 0x10000 then
      [(0xE0 + v / 4096) as byte, (0x80 + (v / 64) % 64) as byte, (0x80 + v % 64) as byte]
    else
      [(0xF0 + v / 0x40000) as byte, (0x80 + (v / 4096) % 64) as byte,
       (0x80 + (v / 64) % 64) as byte, (0x80 + v % 64) as byte]
  }

  /** The bytes of `s`, as `str::as_bytes` returns them. */
  function Encode(s: string): (b: seq<byte>)
  {
    if s == [] then [] else EncodeChar(s[0]) + Encode(s[1..])
  }

  predicate IsAscii(s: string) {
    forall i :: 0 <= i < |s| ==> s[i] as int < 0x80
  }

  /** How many bytes a sequence starting with lead byte `b` claims (0: not a lead byte). */
  function LeadWidth(b: byte): nat {
    if b < 0x80 then 1
    else if 0xC0 <= b < 0xE0 then 2
    else if 0xE0 <= b < 0xF0 then 3
    else if 0xF0 <= b < 0xF8 then 4
    else 0
  }

  predicate IsContinuation(b: byte) { 0x80 <= b < 0xC0 }

  /** The scalar value of one encoded character `u` (1 to 4 bytes), if it denotes one. */
  function DecodeScalar(u: seq<byte>): Option<char>
    requires 1 <= |u| <= 4 && LeadWidth(u[0]) == |u|
  {
    if !(forall k :: 1 <= k < |u| ==> IsContinuation(u[k])) then None
    else
      var v :=
        if |u| == 1 then u[0] as int
        else if |u| == 2 then (u[0] as int - 0xC0) * 64 + (u[1] as int - 0x80)
        else if |u| == 3 then
          (u[0] as int - 0xE0) * 4096 + (u[1] as int - 0x80) * 64 + (u[2] as int - 0x80)
        else
          (u[0] as int - 0xF0) * 0x40000 + (u[1] as int - 0x80) * 4096
            + (u[2] as int - 0x80) * 64 + (u[3] as int - 0x80);
      if 0 <= v < 0xD800 || 0xE000 <= v < 0x11_0000 then Some(v as char) else None
  }

  /**
    Reads a byte sequence back as text: a left inverse of `Encode`. It gives
    None on a bad lead byte, a missing continuation byte, a surrogate or a value
    past U+10FFFF, but it does not reject overlong forms.
  */
  function Decode(b: seq<byte>): Option<string>
    decreases |b|
  {
    if b == [] then Some([])
    else
      var n := LeadWidth(b[0]);
      if n == 0 || |b| < n then None
      else match DecodeScalar(b[..n])
        case None => None
        case Some(c) =>
          match Decode(b[n..])
          case None => None
          case Some(rest) => Some([c] + rest)
  }

  lemma DecodeScalarOfEncodeChar(c: char)
    ensures LeadWidth(EncodeChar(c)[0]) == Width(c)
    ensures DecodeScalar(EncodeChar(c)) == Some(c)
  {
    var v := c as int;
    if v < 0x80 {
    } else if v < 0x800 {
      DecodeTwo(c);
    } else if v < 0x10000 {
      DecodeThree(c);
    } else {
      DecodeFour(c);
    }
  }

  lemma DecodeTwo(c: char)
    requires 0x80 <= c as int < 0x800
    ensures LeadWidth(EncodeChar(c)[0]) == 2
    ensures DecodeScalar(EncodeChar(c)) == Some(c)
  {
    var v := c as int;
    var q, r := v / 64, v % 64;
    assert v == q * 64 + r;
    var u := EncodeChar(c);
    assert u == [(0xC0 + q) as byte, (0x80 + r) as byte];
    assert IsContinuation(u[1]);
    assert (u[0] as int - 0xC0) * 64 + (u[1] as int - 0x80) == v;
  }

  lemma DecodeThree(c: char)
    requires 0x800 <= c as int < 0x10000
    ensures LeadWidth(EncodeChar(c)[0]) == 3
    ensures DecodeScalar(EncodeChar(c)) == Some(c)
  {
    var v := c as int;
    var q, r := v / 64, v % 64;
    var q2, r2 := q / 64, q % 64;
    assert v == q * 64 + r;
    assert q == q2 * 64 + r2;
    assert q2 == v / 4096;
    var u := EncodeChar(c);
    assert u == [(0xE0 + q2) as byte, (0x80 + r2) as byte, (0x80 + r) as byte];
    assert IsContinuation(u[1]) && IsContinuation(u[2]);
    assert (u[0] as int - 0xE0) * 4096 + (u[1] as int - 0x80) * 64 + (u[2] as int - 0x80) == v;
  }

  lemma DecodeFour(c: char)
    requires 0x10000 <= c as int
    ensures LeadWidth(EncodeChar(c)[0]) == 4
    ensures DecodeScalar(EncodeChar(c)) == Some(c)
  {
    var v := c as int;
    var q, r := v / 64, v % 64;
    var q2, r2 := q / 64, q % 64;
    var q3, r3 := q2 / 64, q2 % 64;
    assert v == q * 64 + r;
    assert q == q2 * 64 + r2;
    assert q2 == q3 * 64 + r3;
    assert q2 == v / 4096;
    assert q3 == v / 0x40000;
    var u := EncodeChar(c);
    assert u == [(0xF0 + q3) as byte, (0x80 + r3) as byte, (0x80 + r2) as byte, (0x80 + r) as byte];
    assert IsContinuation(u[1]) && IsContinuation(u[2]) && IsContinuation(u[3]);
    assert (u[0] as int - 0xF0) * 0x40000 + (u[1] as int - 0x80) * 4096
      + (u[2] as int - 0x80) * 64 + (u[3] as int - 0x80) == v;
  }

  /** Decoding undoes encoding, so two strings with the same bytes are equal. */
  lemma {:induction false} DecodeEncode(s: string)
    ensures Decode(Encode(s)) == Some(s)
  {
    if s != [] {
      var u := EncodeChar(s[0]);
      var b := Encode(s);
      assert b == u + Encode(s[1..]);
      DecodeScalarOfEncodeChar(s[0]);
      assert b[..|u|] == u;
      assert b[|u|..] == Encode(s[1..]);
      DecodeEncode(s[1..]);
      assert [s[0]] + s[1..] == s;
    }
  }

  lemma EncodeInjective(s: string, t: string)
    ensures Encode(s) == Encode(t) <==> s == t
  {
    if Encode(s) == Encode(t) {
      DecodeEncode(s);
      DecodeEncode(t);
    }
  }

  /** `str::len` counts bytes: never fewer than characters, exactly as many for ASCII text. */
  lemma {:induction false} ByteLength(s: string)
    ensures |Encode(s)| >= |s|
    ensures |Encode(s)| == |s| <==> IsAscii(s)
  {
    if s != [] {
      ByteLength(s[1..]);
      if IsAscii(s) {
        assert IsAscii(s[1..]) by {
          forall i | 0 <= i < |s[1..]| ensures s[1..][i] as int < 0x80 {
            assert s[1..][i] == s[i + 1];
          }
        }
      } else if IsAscii(s[1..]) {
        var i :| 0 <= i < |s| && s[i] as int >= 0x80;
        if i > 0 {
          assert s[1..][i - 1] == s[i];
        }
      }
    }
  }
}

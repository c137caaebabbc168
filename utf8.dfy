/** UTF-8 as Python's `str.encode('utf-8')` and strict `bytes.decode('utf-8')` treat it
    (RFC 3629, section 4: no overlong forms, no surrogates, nothing above U+10FFFF).
    A Dafny `char` is a Unicode scalar value, so every string is encodable. */
module Utf8 {
  import opened Common

  /** The one to four bytes of one scalar value. */
  function CharBytes(c: char): (r: seq<byte>)
    ensures 1 <= |r| <= 4
    ensures |r| == 1 <==> (c as int) < 0x80
  {
    var n := c as int;
    if n < 0x80 then [n]
    else if n < 0x800 then [0xC0 + n / 64, 0x80 + n % 64]
    else if n < 0x10000 then [0xE0 + n / 4096, 0x80 + n / 64 % 64, 0x80 + n % 64]
    else [0xF0 + n / 262144, 0x80 + n / 4096 % 64, 0x80 + n / 64 % 64, 0x80 + n % 64]
  }

  function Encode(s: string): (r: seq<byte>)
    ensures |r| >= |s|
  {
    if |s| == 0 then [] else CharBytes(s[0]) + Encode(s[1..])
  }

  /** A continuation byte `10xxxxxx`. */
  predicate Cont(b: byte) { 0x80 <= b < 0xC0 }

  /** The scalar value at the front of `b` and the number of bytes it takes, or None
      where a strict decoder reports an invalid or truncated sequence. */
  function DecodeChar(b: seq<byte>): (r: Option<(char, nat)>)
    requires |b| > 0
    ensures r.Some? ==> 1 <= r.value.1 <= |b|
  {
    var b0 := b[0] as int;
    if b0 < 0x80 then Some((b0 as char, 1))
    else if 0xC2 <= b0 <= 0xDF then
      if |b| >= 2 && Cont(b[1]) then Some((((b0 - 0xC0) * 64 + (b[1] as int - 0x80)) as char, 2))
      else None
    else if 0xE0 <= b0 <= 0xEF then
      var lo := if b0 == 0xE0 then 0xA0 else 0x80;
      var hi := if b0 == 0xED then 0x9F else 0xBF;
      if |b| >= 3 && lo <= b[1] <= hi && Cont(b[2]) then
        Some((Scalar3(b0, b[1], b[2]) as char, 3))
      else None
    else if 0xF0 <= b0 <= 0xF4 then
      var lo := if b0 == 0xF0 then 0x90 else 0x80;
      var hi := if b0 == 0xF4 then 0x8F else 0xBF;
      if |b| >= 4 && lo <= b[1] <= hi && Cont(b[2]) && Cont(b[3]) then
        Some((Scalar4(b0, b[1], b[2], b[3]) as char, 4))
      else None
    else None
  }

  /** The value carried by a three-byte sequence that passed the range checks. */
  function Scalar3(b0: int, b1: int, b2: int): (n: int)
    requires 0xE0 <= b0 <= 0xEF && 0x80 <= b1 < 0xC0 && 0x80 <= b2 < 0xC0
    requires b0 == 0xE0 ==> b1 >= 0xA0
    requires b0 == 0xED ==> b1 <= 0x9F
    ensures 0x800 <= n < 0xD800 || 0xE000 <= n < 0x10000
  {
    (b0 - 0xE0) * 4096 + (b1 - 0x80) * 64 + (b2 - 0x80)
  }

  /** The value carried by a four-byte sequence that passed the range checks. */
  function Scalar4(b0: int, b1: int, b2: int, b3: int): (n: int)
    requires 0xF0 <= b0 <= 0xF4 && 0x80 <= b1 < 0xC0 && 0x80 <= b2 < 0xC0 && 0x80 <= b3 < 0xC0
    requires b0 == 0xF0 ==> b1 >= 0x90
    requires b0 == 0xF4 ==> b1 <= 0x8F
    ensures 0x10000 <= n < 0x110000
  {
    (b0 - 0xF0) * 262144 + (b1 - 0x80) * 4096 + (b2 - 0x80) * 64 + (b3 - 0x80)
  }

  function Decode(b: seq<byte>): Option<string>
    decreases |b|, 1
  {
    if |b| == 0 then Some([]) else DecodeNonEmpty(b)
  }

  /** The first scalar value of `b` followed by the decoding of the rest. */
  function DecodeNonEmpty(b: seq<byte>): Option<string>
    requires |b| > 0
    decreases |b|, 0
  {
    match DecodeChar(b)
    case None => None
    case Some((c, k)) =>
      match Decode(b[k..])
      case None => None
      case Some(rest) => Some([c] + rest)
  }

  lemma Split2(n: int)
    requires 0x80 <= n < 0x800
    ensures 0xC2 <= 0xC0 + n / 64 <= 0xDF && 0 <= n % 64 < 64
    ensures (n / 64) * 64 + n % 64 == n
  {
  }

  lemma Split3(n: int)
    requires 0x800 <= n < 0x10000
    ensures 0 <= n / 4096 < 16 && 0 <= n / 64 % 64 < 64 && 0 <= n % 64 < 64
    ensures (n / 4096) * 4096 + (n / 64 % 64) * 64 + n % 64 == n
    ensures n / 4096 == 0 ==> n / 64 % 64 >= 0x20
  {
  }

  lemma Split4(n: int)
    requires 0x10000 <= n < 0x110000
    ensures 0 <= n / 262144 <= 4 && 0 <= n / 4096 % 64 < 64 && 0 <= n / 64 % 64 < 64 && 0 <= n % 64 < 64
    ensures (n / 262144) * 262144 + (n / 4096 % 64) * 4096 + (n / 64 % 64) * 64 + n % 64 == n
    ensures n / 262144 == 0 ==> n / 4096 % 64 >= 0x10
    ensures n / 262144 == 4 ==> n / 4096 % 64 < 0x10
  {
  }

  /** Decoding the bytes of one scalar value, whatever follows them, gives it back. */
  lemma CharRoundTrip(c: char, rest: seq<byte>)
    ensures DecodeChar(CharBytes(c) + rest) == Some((c, |CharBytes(c)|))
  {
    var n := c as int;
    if n < 0x80 {
    } else if n < 0x800 {
      Char2RoundTrip(c, rest);
    } else if n < 0x10000 {
      Char3RoundTrip(c, rest);
    } else {
      Char4RoundTrip(c, rest);
    }
  }

  lemma Char2RoundTrip(c: char, rest: seq<byte>)
    requires 0x80 <= c as int < 0x800
    ensures DecodeChar(CharBytes(c) + rest) == Some((c, 2))
  {
    var n := c as int;
    var b := CharBytes(c) + rest;
    Split2(n);
    assert b[0] == 0xC0 + n / 64 && b[1] == 0x80 + n % 64;
  }

  lemma Char3RoundTrip(c: char, rest: seq<byte>)
    requires 0x800 <= c as int < 0x10000
    ensures DecodeChar(CharBytes(c) + rest) == Some((c, 3))
  {
    var n := c as int;
    var b := CharBytes(c) + rest;
    Split3(n);
    assert n / 4096 == 13 ==> n < 0xD800;
    assert b[0] == 0xE0 + n / 4096 && b[1] == 0x80 + n / 64 % 64 && b[2] == 0x80 + n % 64;
    assert Scalar3(b[0], b[1], b[2]) == n;
  }

  lemma Char4RoundTrip(c: char, rest: seq<byte>)
    requires 0x10000 <= c as int
    ensures DecodeChar(CharBytes(c) + rest) == Some((c, 4))
  {
    var n := c as int;
    var b := CharBytes(c) + rest;
    Split4(n);
    assert b[0] == 0xF0 + n / 262144 && b[1] == 0x80 + n / 4096 % 64;
    assert b[2] == 0x80 + n / 64 % 64 && b[3] == 0x80 + n % 64;
    assert Scalar4(b[0], b[1], b[2], b[3]) == n;
  }

  /** decode(encode(s)) == s */
  lemma {:induction false} RoundTrip(s: string)
    ensures Decode(Encode(s)) == Some(s)
  {
    if |s| > 0 {
      var b := Encode(s);
      CharRoundTrip(s[0], Encode(s[1..]));
      assert b[|CharBytes(s[0])|..] == Encode(s[1..]);
      RoundTrip(s[1..]);
      assert [s[0]] + s[1..] == s;
    }
  }

  /** Characters and bytes agree in number exactly for ASCII text. */
  lemma {:induction false} LengthIsCharCountOnlyForAscii(s: string)
    ensures |Encode(s)| == |s| <==> forall i :: 0 <= i < |s| ==> (s[i] as int) < 0x80
  {
    if |s| > 0 {
      LengthIsCharCountOnlyForAscii(s[1..]);
      assert forall i :: 1 <= i < |s| ==> s[i] == s[1..][i - 1];
    }
  }
}

/** Fixed-width big-endian integers, as Python's `struct` packs them with a '>' format:
    unsigned codes (B, H, I, Q) and two's-complement signed codes (i, q). */
module BigEndian {
  import opened Common

  function Pow256(width: nat): (r: nat)
    ensures r >= 1
  {
    if width == 0 then 1 else 256 * Pow256(width - 1)
  }

  /** `n` fits in an unsigned field of `width` bytes. */
  predicate FitsUnsigned(n: int, width: nat) {
    0 <= n < Pow256(width)
  }

  /** `x` fits in a two's-complement field of `width` bytes. */
  predicate FitsSigned(x: int, width: nat) {
    width > 0 && -(Pow256(width) / 2) <= x < Pow256(width) / 2
  }

  /** The `width` bytes of `n`, most significant first. */
  function Encode(n: nat, width: nat): (r: seq<byte>)
    requires FitsUnsigned(n, width)
    ensures |r| == width
  {
    if width == 0 then [] else Encode(n / 256, width - 1) + [n % 256]
  }

  /** The unsigned value of a big-endian byte string. */
  function Decode(b: seq<byte>): (n: nat)
    ensures FitsUnsigned(n, |b|)
  {
    if |b| == 0 then 0 else Decode(b[..|b| - 1]) * 256 + b[|b| - 1]
  }

  lemma {:induction false} DecodeEncode(n: nat, width: nat)
    requires FitsUnsigned(n, width)
    ensures Decode(Encode(n, width)) == n
  {
    if width > 0 {
      var e := Encode(n, width);
      assert e[..width - 1] == Encode(n / 256, width - 1);
      DecodeEncode(n / 256, width - 1);
    }
  }

  lemma {:induction false} EncodeDecode(b: seq<byte>)
    ensures Encode(Decode(b), |b|) == b
  {
    if |b| > 0 {
      var p := b[..|b| - 1];
      var n := Decode(b);
      assert n / 256 == Decode(p) && n % 256 == b[|b| - 1];
      EncodeDecode(p);
      assert b == p + [b[|b| - 1]];
    }
  }

  /** Two's-complement encoding of `x` in `width` bytes. */
  function EncodeSigned(x: int, width: nat): (r: seq<byte>)
    requires FitsSigned(x, width)
    ensures |r| == width
  {
    Encode(if x < 0 then x + Pow256(width) else x, width)
  }

  /** The two's-complement value of a byte string. */
  function DecodeSigned(b: seq<byte>): (x: int)
    ensures |b| > 0 ==> FitsSigned(x, |b|)
  {
    var u := Decode(b);
    if u >= Pow256(|b|) / 2 then u - Pow256(|b|) else u
  }

  lemma DecodeEncodeSigned(x: int, width: nat)
    requires FitsSigned(x, width)
    ensures DecodeSigned(EncodeSigned(x, width)) == x
  {
    DecodeEncode(if x < 0 then x + Pow256(width) else x, width);
  }

  /** Concatenated fields can be cut apart again at their widths. */
  lemma SplitPrefix(a: seq<byte>, rest: seq<byte>)
    ensures (a + rest)[..|a|] == a && (a + rest)[|a|..] == rest
  {
  }
}

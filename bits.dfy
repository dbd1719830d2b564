/**
 * Bytes and textual bit strings. The program keeps bit strings as text made of
 * '0' and '1'; here a bit string is a `seq<bool>` with `true` for '1', most
 * significant bit first. `ToBits` stands for `format!("{:08b}", b)` (and for
 * the 6-digit keys of the tables), `FromBits` for `u8::from_str_radix(s, 2)`.
 */
module Bits {

  /** Rust's `u8`. */
  type byte = b: int | 0 <= b < 256

  /** 2 to the power n. */
  function Pow2(n: nat): (r: nat)
    ensures r >= 1
  {
    if n == 0 then 1 else 2 * Pow2(n - 1)
  }

  /** The `width` low bits of `v`, most significant first. */
  function ToBits(v: nat, width: nat): (r: seq<bool>)
    ensures |r| == width
  {
    if width == 0 then [] else ToBits(v / 2, width - 1) + [v % 2 == 1]
  }

  /** The big-endian unsigned value of a bit string. */
  function FromBits(b: seq<bool>): (r: nat)
    ensures r < Pow2(|b|)
  {
    if b == [] then 0 else 2 * FromBits(b[..|b| - 1]) + (if b[|b| - 1] then 1 else 0)
  }

  /** Reading back the binary of a value that fits the width gives the value. */
  lemma {:induction false} FromToBits(v: nat, width: nat)
    requires v < Pow2(width)
    ensures FromBits(ToBits(v, width)) == v
  {
    if width > 0 {
      FromToBits(v / 2, width - 1);
      var r := ToBits(v, width);
      assert r[..width - 1] == ToBits(v / 2, width - 1);
    }
  }

  /** Writing out the value of a bit string in as many digits gives the string back. */
  lemma {:induction false} ToFromBits(b: seq<bool>)
    ensures ToBits(FromBits(b), |b|) == b
  {
    if b != [] {
      var n := |b|;
      ToFromBits(b[..n - 1]);
      assert b == b[..n - 1] + [b[n - 1]];
    }
  }

  /** The eight binary digits of a byte read back as that byte. */
  lemma ByteValue(b: byte)
    ensures FromBits(ToBits(b, 8)) == b
  {
    Pow2Values();
    FromToBits(b, 8);
  }

  /** Two bit strings of one width with the same value are equal. */
  lemma FromBitsInjective(a: seq<bool>, b: seq<bool>)
    requires |a| == |b| && FromBits(a) == FromBits(b)
    ensures a == b
  {
    ToFromBits(a);
    ToFromBits(b);
  }

  /** The two powers the codec needs: 64 sextet values and 256 byte values. */
  lemma Pow2Values()
    ensures Pow2(6) == 64 && Pow2(8) == 256
  {
  }

  /** A longer prefix is the shorter prefix followed by the slice between them. */
  lemma PrefixExtend<T>(s: seq<T>, lo: nat, hi: nat)
    requires lo <= hi <= |s|
    ensures s[..hi] == s[..lo] + s[lo..hi]
  {
  }
}

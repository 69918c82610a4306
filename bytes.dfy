/** Bytes and the little-endian integer fields of MAVLink payload structs.
    The plugin copies C structs verbatim into a frame (memcpy), so on a
    little-endian host every n-byte field appears as its value modulo 256^n,
    least significant byte first. */
module Bytes {

  type byte = bv8

  function Pow256(n: nat): (r: nat)
    ensures r > 0
  {
    if n == 0 then 1 else 256 * Pow256(n - 1)
  }

  /** The n bytes a C store of an unsigned n-byte integer x (taken modulo 256^n) leaves in memory. */
  function LittleEndian(x: nat, n: nat): (s: seq<byte>)
    ensures |s| == n
  {
    if n == 0 then [] else [(x % 256) as byte] + LittleEndian(x / 256, n - 1)
  }

  /** The unsigned integer that a little-endian byte sequence holds. */
  function FromLittleEndian(s: seq<byte>): (x: nat)
    ensures x < Pow256(|s|)
  {
    if s == [] then 0
    else
      var low := s[0] as nat;
      var rest := FromLittleEndian(s[1..]);
      DigitBound(low, rest, Pow256(|s| - 1));
      low + 256 * rest
  }

  lemma DigitBound(low: nat, rest: nat, bound: nat)
    requires low < 256 && rest < bound
    ensures low + 256 * rest < 256 * bound
  {
  }

  /** A value splits into its low byte and the rest. */
  lemma LowByte(x: nat)
    ensures ((x % 256) as byte) as nat + 256 * (x / 256) == x
  {
  }

  lemma QuotientBound(x: nat, n: nat)
    requires n > 0 && x < Pow256(n)
    ensures x / 256 < Pow256(n - 1)
  {
  }

  /** Reading back an n-byte store gives the stored value when it fits. */
  lemma {:induction false} FromLittleEndianInverse(x: nat, n: nat)
    requires x < Pow256(n)
    ensures FromLittleEndian(LittleEndian(x, n)) == x
  {
    if n > 0 {
      var s := LittleEndian(x, n);
      assert s[1..] == LittleEndian(x / 256, n - 1);
      QuotientBound(x, n);
      FromLittleEndianInverse(x / 256, n - 1);
      LowByte(x);
    }
  }

  lemma Pow256Values()
    ensures Pow256(1) == 0x100 && Pow256(2) == 0x1_0000 && Pow256(4) == 0x1_0000_0000
    ensures Pow256(8) == 0x1_0000_0000_0000_0000
  {
    assert Pow256(2) == 256 * Pow256(1);
    assert Pow256(4) == 256 * (256 * Pow256(2));
    assert Pow256(8) == 256 * (256 * (256 * (256 * Pow256(4))));
  }

  /** A slice of a slice is a slice of the whole. */
  lemma SliceOfSlice(p: seq<byte>, lo: nat, hi: nat, i: nat, j: nat)
    requires lo <= hi <= |p| && i <= j <= hi - lo
    ensures p[lo..hi][i..j] == p[lo + i..lo + j]
  {
    assert forall k :: 0 <= k < j - i ==> p[lo..hi][i..j][k] == p[lo + i + k];
  }
}

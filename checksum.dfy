/** The MAVLink checksum: CRC-16/MCRF4XX, i.e. the ITU X.25 CRC (reflected
    polynomial 0x8408, initial value 0xFFFF, no final xor), accumulated one
    byte at a time as the MAVLink library's crc_init, crc_accumulate and
    crc_accumulate_buffer do. */
module Checksum {
  import opened Bytes

  /** crc_init's starting value. */
  const X25_INIT_CRC: bv16 := 0xFFFF

  /** One crc_accumulate step. The library computes
      tmp = data ^ (crc & 0xFF), then tmp ^= tmp << 4 (tmp is 8 bits wide),
      then crc = (crc >> 8) ^ (tmp << 8) ^ (tmp << 3) ^ (tmp >> 4).
      Here the same computation is grouped as a table-driven CRC:
      the register shifted right by one byte, xor an entry selected by the
      low byte of the register xor the data byte. */
  function Accumulate(data: byte, crc: bv16): (r: bv16)
    ensures r == DivideByte(crc ^ data as bv16)
  {
    Advance(crc, Table(Index(data, crc)))
  }

  /** data ^ (crc & 0xFF), the byte that selects the table entry. */
  function Index(data: byte, crc: bv16): bv16
  {
    (data as bv16 ^ crc) & 0xFF
  }

  /** tmp ^= tmp << 4 on the 8-bit tmp. */
  function Scramble(x: bv16): bv16
  {
    (x ^ (x << 4)) & 0xFF
  }

  /** (tmp << 8) ^ (tmp << 3) ^ (tmp >> 4), with tmp the scrambled index. */
  function Table(x: bv16): bv16
  {
    var t := Scramble(x);
    (t << 8) ^ (t << 3) ^ (t >> 4)
  }

  /** One step of the bit-serial definition of the CRC: shift the register
      right by one bit, xor the reflected polynomial 0x8408 in when the bit
      shifted out is set. */
  function Divide(r: bv16): bv16
  {
    if r & 1 == 1 then (r >> 1) ^ 0x8408 else r >> 1
  }

  /** Eight bit-serial steps: the textbook update for one data byte xored
      into the register. */
  function DivideByte(r: bv16): bv16
  {
    Divide(Divide(Divide(Divide(Divide(Divide(Divide(Divide(r))))))))
  }

  /** Shifts out the low byte of the register and mixes in a table entry. */
  function Advance(crc: bv16, entry: bv16): bv16
  {
    (crc >> 8) ^ entry
  }

  /** The CRC after accumulating every byte of s, in order, onto crc. */
  function AccumulateAll(s: seq<byte>, crc: bv16): bv16
  {
    if s == [] then crc else Accumulate(s[|s| - 1], AccumulateAll(s[..|s| - 1], crc))
  }

  // Single-step bit-vector facts. Each is proved on its own; the lemmas that
  // combine them only chain equalities between the functions above.

  /** Distinct indices select distinct table entries. */
  lemma TableInjective(x1: bv16, x2: bv16)
    requires x1 < 256 && x2 < 256 && x1 != x2
    ensures Table(x1) != Table(x2)
  {
  }

  /** Distinct indices even select entries with distinct high bytes. */
  lemma TableHighByteInjective(x1: bv16, x2: bv16)
    requires x1 < 256 && x2 < 256 && x1 != x2
    ensures Table(x1) >> 8 != Table(x2) >> 8
  {
  }

  lemma AdvanceInjectiveInEntry(crc: bv16, e1: bv16, e2: bv16)
    requires e1 != e2
    ensures Advance(crc, e1) != Advance(crc, e2)
  {
  }

  lemma AdvanceInjectiveInHighByte(c1: bv16, c2: bv16, entry: bv16)
    requires c1 >> 8 != c2 >> 8
    ensures Advance(c1, entry) != Advance(c2, entry)
  {
  }

  /** The high byte of the new register is the high byte of the entry. */
  lemma AdvanceHighByte(crc: bv16, entry: bv16)
    ensures Advance(crc, entry) >> 8 == entry >> 8
  {
  }

  lemma IndexInjectiveInData(a: byte, b: byte, crc: bv16)
    requires a != b
    ensures Index(a, crc) != Index(b, crc) && Index(a, crc) < 256 && Index(b, crc) < 256
  {
  }

  lemma IndexOfSameLowByte(data: byte, c1: bv16, c2: bv16)
    requires c1 & 0xFF == c2 & 0xFF
    ensures Index(data, c1) == Index(data, c2)
  {
  }

  lemma IndexOfDifferentLowByte(data: byte, c1: bv16, c2: bv16)
    requires c1 & 0xFF != c2 & 0xFF
    ensures Index(data, c1) != Index(data, c2) && Index(data, c1) < 256 && Index(data, c2) < 256
  {
  }

  lemma HighBytesDiffer(c1: bv16, c2: bv16)
    requires c1 & 0xFF == c2 & 0xFF && c1 != c2
    ensures c1 >> 8 != c2 >> 8
  {
  }

  /** For a fixed register, different data bytes give different registers. */
  lemma AccumulateInjectiveInData(a: byte, b: byte, crc: bv16)
    requires a != b
    ensures Accumulate(a, crc) != Accumulate(b, crc)
  {
    IndexInjectiveInData(a, b, crc);
    TableInjective(Index(a, crc), Index(b, crc));
    AdvanceInjectiveInEntry(crc, Table(Index(a, crc)), Table(Index(b, crc)));
  }

  /** For a fixed data byte, the step is one-to-one on the register. */
  lemma AccumulateInjectiveInRegister(data: byte, c1: bv16, c2: bv16)
    requires c1 != c2
    ensures Accumulate(data, c1) != Accumulate(data, c2)
  {
    if c1 & 0xFF == c2 & 0xFF {
      IndexOfSameLowByte(data, c1, c2);
      HighBytesDiffer(c1, c2);
      AdvanceInjectiveInHighByte(c1, c2, Table(Index(data, c1)));
    } else {
      IndexOfDifferentLowByte(data, c1, c2);
      TableHighByteInjective(Index(data, c1), Index(data, c2));
      AdvanceHighByte(c1, Table(Index(data, c1)));
      AdvanceHighByte(c2, Table(Index(data, c2)));
    }
  }

  lemma {:induction false} AccumulateAllAppend(s: seq<byte>, x: byte, crc: bv16)
    ensures AccumulateAll(s + [x], crc) == Accumulate(x, AccumulateAll(s, crc))
  {
    assert (s + [x])[..|s + [x]| - 1] == s;
  }

  /** Two byte sequences that differ in exactly one position leave
      different registers: a single corrupted byte is always detected. */
  lemma {:induction false} SingleByteChangeDetected(s: seq<byte>, t: seq<byte>, k: nat, crc: bv16)
    requires |s| == |t| && k < |s|
    requires s[k] != t[k]
    requires forall i :: 0 <= i < |s| && i != k ==> s[i] == t[i]
    ensures AccumulateAll(s, crc) != AccumulateAll(t, crc)
  {
    var n := |s| - 1;
    if k == n {
      assert s[..n] == t[..n];
      AccumulateInjectiveInData(s[n], t[n], AccumulateAll(s[..n], crc));
    } else {
      SingleByteChangeDetected(s[..n], t[..n], k, crc);
      AccumulateInjectiveInRegister(s[n], AccumulateAll(s[..n], crc), AccumulateAll(t[..n], crc));
    }
  }

  /** The standard check value of CRC-16/MCRF4XX: the ASCII digits "123456789" give 0x6F91. */
  lemma CheckValue()
    ensures AccumulateAll([0x31, 0x32, 0x33, 0x34, 0x35, 0x36, 0x37, 0x38, 0x39], X25_INIT_CRC) == 0x6F91
  {
    var s: seq<byte> := [0x31, 0x32, 0x33, 0x34, 0x35, 0x36, 0x37, 0x38, 0x39];
    var expected: seq<bv16> := [0xFFFF, 0x2F8D, 0x4D53, 0x634B, 0x8B13, 0x44BF, 0x198D, 0x1AC8, 0xF795, 0x6F91];
    var k := 0;
    while k < 9
      invariant 0 <= k <= 9
      invariant AccumulateAll(s[..k], X25_INIT_CRC) == expected[k]
    {
      assert s[..k + 1][..k] == s[..k];
      k := k + 1;
    }
    assert s[..9] == s;
  }

  /** crc_accumulate_buffer: accumulates length bytes of buf from index start. */
  method AccumulateBuffer(crc0: bv16, buf: array<byte>, start: nat, length: nat) returns (crc: bv16)
    requires start + length <= buf.Length
    ensures crc == AccumulateAll(buf[start..start + length], crc0)
  {
    crc := crc0;
    var i := 0;
    while i < length
      invariant 0 <= i <= length
      invariant crc == AccumulateAll(buf[start..start + i], crc0)
    {
      assert buf[start..start + i + 1] == buf[start..start + i] + [buf[start + i]];
      AccumulateAllAppend(buf[start..start + i], buf[start + i], crc0);
      crc := Accumulate(buf[start + i], crc);
      i := i + 1;
    }
  }
}

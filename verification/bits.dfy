/** Bits of a byte and the byte-order helpers the wire formats use. */
module Bits {

  /** The byte with only bit `k` set, bit 0 being the least significant. */
  const BitMask: seq<bv8> := [0x01, 0x02, 0x04, 0x08, 0x10, 0x20, 0x40, 0x80]

  /** Bit `k` (0 = least significant) of a byte. */
  predicate Bit(b: bv8, k: nat)
    requires k < 8
  {
    b & BitMask[k] != 0
  }

  /** A byte none of whose eight bits is set is zero. */
  lemma BitsZero(b: bv8)
    requires forall k :: 0 <= k < 8 ==> !Bit(b, k)
    ensures b == 0
  {
    assert !Bit(b, 0) && !Bit(b, 1) && !Bit(b, 2) && !Bit(b, 3);
    assert !Bit(b, 4) && !Bit(b, 5) && !Bit(b, 6) && !Bit(b, 7);
  }

  /** An integer in byte range survives the round trip through a byte.
      The proof splits the range into runs of eight, which keeps each case
      of the solver's bit-vector reasoning small. */
  lemma ByteOfInt(x: int)
    requires 0 <= x < 256
    ensures (x as bv8) as int == x
  {
    if x < 8 {} else if x < 16 {} else if x < 24 {} else if x < 32 {}
    else if x < 40 {} else if x < 48 {} else if x < 56 {} else if x < 64 {}
    else if x < 72 {} else if x < 80 {} else if x < 88 {} else if x < 96 {}
    else if x < 104 {} else if x < 112 {} else if x < 120 {} else if x < 128 {}
    else if x < 136 {} else if x < 144 {} else if x < 152 {} else if x < 160 {}
    else if x < 168 {} else if x < 176 {} else if x < 184 {} else if x < 192 {}
    else if x < 200 {} else if x < 208 {} else if x < 216 {} else if x < 224 {}
    else if x < 232 {} else if x < 240 {} else if x < 248 {}
    else {}
  }

  lemma IntOfByte(b: bv8)
    ensures (b as int) as bv8 == b
  {
  }

  /** Positions of the set bits at or above `from`. */
  function SetBits(b: bv8, from: nat): set<nat>
    requires from <= 8
  {
    set k: nat | from <= k < 8 && Bit(b, k)
  }

  /** Peeling bit `from` off the set of set bits at or above it. */
  lemma SetBitsStep(b: bv8, from: nat)
    requires from < 8
    ensures from !in SetBits(b, from + 1)
    ensures Bit(b, from) ==> SetBits(b, from) == {from} + SetBits(b, from + 1)
    ensures Bit(b, from) ==> |SetBits(b, from)| == 1 + |SetBits(b, from + 1)|
    ensures !Bit(b, from) ==> SetBits(b, from) == SetBits(b, from + 1)
  {
    var hi := SetBits(b, from + 1);
    forall k | k in SetBits(b, from) && k != from ensures k in hi {
    }
    if Bit(b, from) {
      assert SetBits(b, from) == {from} + hi;
    } else {
      assert SetBits(b, from) == hi;
    }
  }

  /** Population count: the number of set bits. */
  function PopCount(b: bv8): nat
  {
    |SetBits(b, 0)|
  }

  lemma PopCountZero(b: bv8)
    ensures PopCount(b) == 0 <==> b == 0
  {
    if PopCount(b) == 0 {
      assert SetBits(b, 0) == {};
      forall k | 0 <= k < 8 ensures !Bit(b, k) {
        assert k !in SetBits(b, 0);
      }
      BitsZero(b);
    } else {
      var k :| k in SetBits(b, 0);
      assert b != 0;
    }
  }

  /** Positions of the set bits at or above `from`, lowest first. */
  function SetBitList(b: bv8, from: nat): (ks: seq<nat>)
    requires from <= 8
    ensures forall k :: k in ks <==> from <= k < 8 && Bit(b, k)
    decreases 8 - from
  {
    if from == 8 then []
    else
      var rest := SetBitList(b, from + 1);
      var ks := (if Bit(b, from) then [from] else []) + rest;
      assert forall k :: k in ks <==> (k == from && Bit(b, from)) || k in rest;
      ks
  }

  predicate Ascending(ks: seq<nat>)
  {
    forall x, y :: 0 <= x < y < |ks| ==> ks[x] < ks[y]
  }

  /** The positions are listed in strictly ascending order. */
  lemma {:induction false} SetBitListAscending(b: bv8, from: nat)
    requires from <= 8
    ensures Ascending(SetBitList(b, from))
    decreases 8 - from
  {
    if from < 8 {
      SetBitListAscending(b, from + 1);
      var rest := SetBitList(b, from + 1);
      forall j | 0 <= j < |rest| ensures from < rest[j] {
        assert rest[j] in rest;
      }
      ConsAscending(if Bit(b, from) then [from] else [], from, rest);
    }
  }

  /** At most one position below all others, then an ascending list. */
  lemma ConsAscending(head: seq<nat>, k: nat, rest: seq<nat>)
    requires forall x :: 0 <= x < |head| ==> head[x] == k
    requires |head| <= 1 && Ascending(rest)
    requires forall j :: 0 <= j < |rest| ==> k < rest[j]
    ensures Ascending(head + rest)
  {
    var ks := head + rest;
    forall x, y | 0 <= x < y < |ks| ensures ks[x] < ks[y] {
      assert ks[y] == rest[y - |head|];
      if x >= |head| {
        assert ks[x] == rest[x - |head|];
      }
    }
  }

  /** Bytes read as text, each byte becoming the code point of the same
      value: latin1ToUTF8 in the font reader, and Go's string(bytes) on the
      device ID, which agrees with it on ASCII. */
  function Latin1(line: seq<bv8>): (s: string)
    ensures |s| == |line|
    ensures forall i :: 0 <= i < |line| ==> s[i] as int == line[i] as int
  {
    seq(|line|, i requires 0 <= i < |line| => (line[i] as int) as char)
  }

  /** Latin-1 decoding loses nothing: equal texts come from equal bytes. */
  lemma Latin1Injective(a: seq<bv8>, b: seq<bv8>)
    requires Latin1(a) == Latin1(b)
    ensures a == b
  {
    assert |a| == |b|;
    forall i | 0 <= i < |a| ensures a[i] == b[i] {
      assert Latin1(a)[i] == Latin1(b)[i];
      assert a[i] as int == b[i] as int;
    }
  }

  /** The low byte of `v`, as Go's byte(v) conversion truncates. */
  function LowByte(v: int): bv8
  {
    (v % 256) as bv8
  }

  /** byte(v), byte(v>>8), byte(v>>16), byte(v>>24): little-endian 32-bit,
      with Go's arithmetic shift being floor division by a power of two. */
  function LittleEndian32(v: int): (r: seq<bv8>)
    ensures |r| == 4
  {
    [LowByte(v), LowByte(v / 0x100), LowByte(v / 0x1_0000), LowByte(v / 0x100_0000)]
  }

  /** Truncating a byte's value to a byte gives the byte back. */
  lemma LowByteOfByte(b: bv8)
    ensures LowByte(b as int) == b
  {
    var x := b as int;
    SmallMod(x);
    assert LowByte(x) == x as bv8;
    IntOfByte(b);
  }

  lemma SmallMod(x: int)
    requires 0 <= x < 256
    ensures x % 256 == x
  {
  }

  lemma LowByteValue(v: int)
    ensures LowByte(v) as int == v % 256
  {
    ByteOfInt(v % 256);
  }

  /** One step of the decomposition: v = low byte + 256 * (v / 256). */
  lemma SplitByte(v: int)
    ensures v == v % 0x100 + 0x100 * (v / 0x100)
    ensures (v / 0x100) / 0x100 == v / 0x1_0000
    ensures (v / 0x1_0000) / 0x100 == v / 0x100_0000
  {
  }

  /** Reading the four bytes back gives `v` modulo 2^32. */
  lemma LittleEndian32RoundTrip(v: int)
    ensures var r := LittleEndian32(v);
      r[0] as int + 0x100 * r[1] as int + 0x1_0000 * r[2] as int + 0x100_0000 * r[3] as int
        == v % 0x1_0000_0000
  {
    var r := LittleEndian32(v);
    LowByteValue(v);
    LowByteValue(v / 0x100);
    LowByteValue(v / 0x1_0000);
    LowByteValue(v / 0x100_0000);
    DigitsBase256(v);
  }

  /** The same decomposition on integers alone. */
  lemma DigitsBase256(v: int)
    ensures v % 0x100 + 0x100 * ((v / 0x100) % 0x100) + 0x1_0000 * ((v / 0x1_0000) % 0x100)
      + 0x100_0000 * ((v / 0x100_0000) % 0x100) == v % 0x1_0000_0000
  {
    var a, b, c := v / 0x100, v / 0x1_0000, v / 0x100_0000;
    SplitByte(v);
    SplitByte(a);
    SplitByte(b);
    SplitByte(c);
    var low := v % 0x100 + 0x100 * (a % 0x100) + 0x1_0000 * (b % 0x100) + 0x100_0000 * (c % 0x100);
    assert v == low + 0x1_0000_0000 * (c / 0x100);
    assert 0 <= low < 0x1_0000_0000;
    ModUnique(v, low, c / 0x100);
  }

  lemma ModUnique(v: int, low: int, q: int)
    requires 0 <= low < 0x1_0000_0000 && v == low + 0x1_0000_0000 * q
    ensures v % 0x1_0000_0000 == low
  {
  }
}

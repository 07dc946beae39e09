/**
 * Kademlia identifiers as the routing table sees them.  The routing table is
 * configured with an id length of 16 bits, so an id is the number formed by its
 * first two bytes (big-endian, byte 0 most significant).  Bit index d, as the
 * routing table counts it, is the d-th bit from the most significant end; that
 * is bit 15 - d counted from the least significant end.
 */
module KadIds {
  import opened Wrappers
  import opened BitArith
  import opened Bytes

  type Id = x: int | 0 <= x < 0x1_0000

  /** The all-ones id: the boundary of the last bucket, present in every table. */
  const MAX_ID: Id := 0xFFFF

  datatype RoutingError =
    | IdenticalIds        // determineDifferingBitIndex on two equal ids (the source also returns -2)
    | BucketNotFound      // a bucket id that is not one of the table's boundaries
    | CannotSplit         // a full local bucket whose computed split point does not lie inside it
    | NodeNotFound        // updateNode on an id the table does not hold

  lemma Pow2IdBits()
    ensures Pow2(16) == 0x1_0000
  {
    Pow2Table();
  }

  /** Bit d of an id, counted from the most significant end as the routing table does. */
  predicate IdBit(x: Id, d: int)
    requires 0 <= d < 16
  {
    BitAt(x, 15 - d)
  }

  /** The id formed by two big-endian bytes. */
  function IdFromBytes(hi: Byte, lo: Byte): (id: Id)
    ensures id / 256 == hi && id % 256 == lo
  {
    hi * 256 + lo
  }

  /** XOR distance between two ids. */
  function Distance(a: Id, b: Id): (d: Id)
    ensures d == 0 <==> a == b
  {
    Pow2IdBits();
    XorZeroIff(a, b, 16);
    XorBound(a, b, 16);
    Xor(a, b, 16)
  }

  lemma DistanceSymmetric(a: Id, b: Id)
    ensures Distance(a, b) == Distance(b, a)
  {
    XorComm(a, b, 16);
  }

  /** The XOR of two bytes. */
  function ByteXor(a: Byte, b: Byte): (r: Byte)
    ensures r == 0 <==> a == b
  {
    Pow2Table();
    XorBound(a, b, 8);
    XorZeroIff(a, b, 8);
    Xor(a, b, 8)
  }

  /** The distance of two ids is the byte-wise XOR of their bytes. */
  lemma DistanceIsBytewise(h1: Byte, l1: Byte, h2: Byte, l2: Byte)
    ensures Distance(IdFromBytes(h1, l1), IdFromBytes(h2, l2)) == IdFromBytes(ByteXor(h1, h2), ByteXor(l1, l2))
  {
    assert Pow2(8) == 256 by {
      Pow2Table();
    }
    XorConcat(h1, l1, h2, l2, 8, 8);
    assert Distance(IdFromBytes(h1, l1), IdFromBytes(h2, l2)) == Xor(h1, h2, 8) * 256 + Xor(l1, l2, 8);
  }

  /** xorTwoIds: the byte-wise XOR of two ids of the same length. */
  function XorTwoIds(a: seq<Byte>, b: seq<Byte>): (r: seq<Byte>)
    requires |a| == |b|
    ensures |r| == |a|
    ensures (forall i :: 0 <= i < |r| ==> r[i] == 0) <==> a == b
  {
    var r := seq(|a|, i requires 0 <= i < |a| => ByteXor(a[i], b[i]));
    assert (forall i :: 0 <= i < |r| ==> r[i] == 0) ==> a == b by {
      if forall i :: 0 <= i < |r| ==> r[i] == 0 {
        forall i | 0 <= i < |a|
          ensures a[i] == b[i]
        {
          assert r[i] == ByteXor(a[i], b[i]) == 0;
        }
      }
    }
    r
  }

  /** The byte-wise XOR does not depend on the order of its arguments. */
  lemma XorTwoIdsSymmetric(a: seq<Byte>, b: seq<Byte>)
    requires |a| == |b|
    ensures XorTwoIds(a, b) == XorTwoIds(b, a)
  {
    forall i | 0 <= i < |a|
      ensures ByteXor(a[i], b[i]) == ByteXor(b[i], a[i])
    {
      XorComm(a[i], b[i], 8);
    }
  }

  /** Identical padding after two ids contributes only zero bytes to their XOR. */
  lemma XorTwoIdsPadded(a: seq<Byte>, b: seq<Byte>, pad: seq<Byte>)
    requires |a| == |b|
    ensures XorTwoIds(a + pad, b + pad) == XorTwoIds(a, b) + seq(|pad|, _ => 0)
  {
    forall i | 0 <= i < |pad|
      ensures ByteXor(pad[i], pad[i]) == 0
    {
    }
  }

  /** On two-byte ids the byte-wise XOR is the XOR distance of the ids. */
  lemma XorTwoIdsIsDistance(h1: Byte, l1: Byte, h2: Byte, l2: Byte)
    ensures var x := XorTwoIds([h1, l1], [h2, l2]);
      Distance(IdFromBytes(h1, l1), IdFromBytes(h2, l2)) == IdFromBytes(x[0], x[1])
  {
    DistanceIsBytewise(h1, l1, h2, l2);
  }

  /** Comparing two-byte ids lexicographically (bytes.Compare) is comparing the numbers. */
  lemma BytesOrderIsNumeric(h1: Byte, l1: Byte, h2: Byte, l2: Byte)
    ensures (h1 < h2 || (h1 == h2 && l1 < l2)) <==> IdFromBytes(h1, l1) < IdFromBytes(h2, l2)
  {
  }

  /** The source reads an all-zero id as all-ones when looking for the differing bit. */
  function ZeroAsAllOnes(a: Id): Id {
    if a == 0 then MAX_ID else a
  }

  /**
   * determineDifferingBitIndex: the index, counted from the most significant bit, of
   * the lowest bit in which the two ids differ, after an all-zero id is read as
   * all-ones; -1 when they then agree everywhere (all-ones against zero).
   */
  function DifferingBitIndex(a: Id, b: Id): (r: Result<int, RoutingError>)
    ensures r.Err? <==> a == b
    ensures r.Err? ==> r.error == IdenticalIds
    ensures r.Ok? ==> -1 <= r.value < 16
    ensures r.Ok? && r.value == -1 <==> a != b && ZeroAsAllOnes(a) == ZeroAsAllOnes(b)
  {
    if a == b then Err(IdenticalIds)
    else
      var x := Xor(ZeroAsAllOnes(a), ZeroAsAllOnes(b), 16);
      Pow2IdBits();
      XorZeroIff(ZeroAsAllOnes(a), ZeroAsAllOnes(b), 16);
      XorBound(ZeroAsAllOnes(a), ZeroAsAllOnes(b), 16);
      if x == 0 then Ok(-1)
      else
        TrailingZerosBound(x, 16);
        Ok(16 - 1 - TrailingZeros(x))
  }

  /** The differing bit index does not depend on the order of the arguments. */
  lemma DifferingBitIndexSymmetric(a: Id, b: Id)
    ensures DifferingBitIndex(a, b) == DifferingBitIndex(b, a)
  {
    XorComm(ZeroAsAllOnes(a), ZeroAsAllOnes(b), 16);
  }

  /**
   * A non-negative index d names a bit where the two ids (zero read as all-ones)
   * differ, and they agree on every bit below it (every index greater than d).
   */
  lemma DifferingBitIndexMeaning(a: Id, b: Id)
    requires DifferingBitIndex(a, b).Ok? && DifferingBitIndex(a, b).value >= 0
    ensures var d := DifferingBitIndex(a, b).value;
      IdBit(ZeroAsAllOnes(a), d) != IdBit(ZeroAsAllOnes(b), d) &&
      forall e :: d < e < 16 ==> IdBit(ZeroAsAllOnes(a), e) == IdBit(ZeroAsAllOnes(b), e)
  {
    var a', b' := ZeroAsAllOnes(a), ZeroAsAllOnes(b);
    var x := Xor(a', b', 16);
    TrailingZerosBits(x);
    XorBit(a', b', 16, TrailingZeros(x));
    forall e | DifferingBitIndex(a, b).value < e < 16
      ensures IdBit(a', e) == IdBit(b', e)
    {
      XorBit(a', b', 16, 15 - e);
    }
  }

  /** splitBucket: the id with bit d (from the most significant end) cleared. */
  function SplitBucket(b: Id, d: int): (r: Id)
    requires 0 <= d < 16
    ensures r <= b
  {
    var k := 16 - 1 - d;
    if BitAt(b, k) then (ClearBitBits(b, k, 0); b - Pow2(k)) else b
  }

  /** splitBucket clears bit d and leaves every other bit as it was. */
  lemma SplitBucketBits(b: Id, d: int, e: int)
    requires 0 <= d < 16 && 0 <= e < 16
    ensures IdBit(SplitBucket(b, d), e) == (e != d && IdBit(b, e))
  {
    if BitAt(b, 15 - d) {
      ClearBitBits(b, 15 - d, 15 - e);
    }
  }

  // The fixtures of the routing table's own tests.

  lemma XorTwoIdsFixture()
    ensures XorTwoIds([191], [159]) == [32]
  {
    // 1011 1111 against 1001 1111: the low five bits agree, the high three are 101 and 100
    Pow2Table();
    XorTrailingOnes(5, 4, 3, 5);
    assert Xor(5, 4, 3) == 1;
  }

  lemma SplitBucketFixtures()
    ensures SplitBucket(IdFromBytes(255, 255), 1) == IdFromBytes(191, 255)
    ensures SplitBucket(IdFromBytes(191, 255), 2) == IdFromBytes(159, 255)
    ensures SplitBucket(IdFromBytes(127, 255), 1) == IdFromBytes(63, 255)
    ensures SplitBucket(IdFromBytes(0, 255), 8) == IdFromBytes(0, 127)
    ensures SplitBucket(IdFromBytes(95, 255), 4) == IdFromBytes(87, 255)
    ensures SplitBucket(IdFromBytes(95, 255), 3) == IdFromBytes(79, 255)
  {
    Pow2Table();
  }

  /**
   * The differing bit index of two ids whose low m bits are all ones comes from
   * the XOR of their high 16 - m bits.
   */
  lemma DifferingBitIndexOfTrailingOnes(a: Id, b: Id, h1: nat, h2: nat, m: nat)
    requires m <= 16 && a != b
    requires ZeroAsAllOnes(a) == h1 * Pow2(m) + (Pow2(m) - 1)
    requires ZeroAsAllOnes(b) == h2 * Pow2(m) + (Pow2(m) - 1)
    requires Xor(h1, h2, 16 - m) > 0
    ensures DifferingBitIndex(a, b) == Ok(15 - m - TrailingZeros(Xor(h1, h2, 16 - m)))
  {
    var x := Xor(h1, h2, 16 - m);
    XorTrailingOnes(h1, h2, 16 - m, m);
    TrailingZerosShift(x, m);
    assert Xor(ZeroAsAllOnes(a), ZeroAsAllOnes(b), 16) == x * Pow2(m);
    DifferingBitIndexOfXor(a, b, TrailingZeros(x) + m);
  }

  /** Two ids whose XOR, zero read as all-ones, has t trailing zeros first differ at index 15 - t. */
  lemma DifferingBitIndexOfXor(a: Id, b: Id, t: nat)
    requires a != b && Xor(ZeroAsAllOnes(a), ZeroAsAllOnes(b), 16) > 0
    requires TrailingZeros(Xor(ZeroAsAllOnes(a), ZeroAsAllOnes(b), 16)) == t
    ensures DifferingBitIndex(a, b) == Ok(15 - t)
  {
  }

  lemma DifferingBitIndexFixturesA()
    ensures DifferingBitIndex(IdFromBytes(191, 255), IdFromBytes(255, 255)) == Ok(1)
    ensures DifferingBitIndex(IdFromBytes(255, 255), IdFromBytes(191, 255)) == Ok(1)
    ensures DifferingBitIndex(IdFromBytes(255, 255), IdFromBytes(255, 255)) == Err(IdenticalIds)
    ensures DifferingBitIndex(IdFromBytes(255, 255), IdFromBytes(0, 0)) == Ok(-1)
  {
    FixtureA1();
    DifferingBitIndexSymmetric(0xBFFF, 0xFFFF);
    FixtureA2();
  }

  lemma FixtureA1()
    ensures DifferingBitIndex(IdFromBytes(191, 255), IdFromBytes(255, 255)) == Ok(1)
  {
    Pow2Table();
    // 10|11 1111 1111 1111 1111 against 11|11 1111 1111 1111 1111
    assert Xor(2, 3, 2) == 1;
    DifferingBitIndexOfTrailingOnes(0xBFFF, 0xFFFF, 2, 3, 14);
  }

  /** The all-zero id is read as the all-ones id, so it agrees with it everywhere. */
  lemma FixtureA2()
    ensures DifferingBitIndex(IdFromBytes(255, 255), IdFromBytes(0, 0)) == Ok(-1)
  {
    Pow2Table();
    assert ZeroAsAllOnes(IdFromBytes(0, 0)) == ZeroAsAllOnes(IdFromBytes(255, 255)) == 0xFFFF;
    XorSelf(0xFFFF, 16);
  }

  lemma DifferingBitIndexFixturesB()
    ensures DifferingBitIndex(IdFromBytes(95, 255), IdFromBytes(127, 255)) == Ok(2)
    ensures DifferingBitIndex(IdFromBytes(95, 255), IdFromBytes(79, 255)) == Ok(3)
    ensures DifferingBitIndex(IdFromBytes(95, 255), IdFromBytes(63, 255)) == Ok(2)
  {
    FixtureB1();
    FixtureB2();
    FixtureB3();
  }

  lemma FixtureB1()
    ensures DifferingBitIndex(IdFromBytes(95, 255), IdFromBytes(127, 255)) == Ok(2)
  {
    Pow2Table();
    assert Xor(2, 3, 3) == 1;
    DifferingBitIndexOfTrailingOnes(0x5FFF, 0x7FFF, 2, 3, 13);
  }

  lemma FixtureB2()
    ensures DifferingBitIndex(IdFromBytes(95, 255), IdFromBytes(79, 255)) == Ok(3)
  {
    Pow2Table();
    assert Xor(5, 4, 4) == 1;
    DifferingBitIndexOfTrailingOnes(0x5FFF, 0x4FFF, 5, 4, 12);
  }

  lemma FixtureB3()
    ensures DifferingBitIndex(IdFromBytes(95, 255), IdFromBytes(63, 255)) == Ok(2)
  {
    Pow2Table();
    assert Xor(5, 3, 4) == 6 && TrailingZeros(6) == 1;
    DifferingBitIndexOfTrailingOnes(0x5FFF, 0x3FFF, 5, 3, 12);
  }

  /** Against the all-zero id (read as all-ones) the index is one less than the leading zero bits. */
  lemma DifferingBitIndexFixturesC()
    ensures DifferingBitIndex(IdFromBytes(127, 255), IdFromBytes(0, 0)) == Ok(0)
    ensures DifferingBitIndex(IdFromBytes(63, 255), IdFromBytes(0, 0)) == Ok(1)
    ensures DifferingBitIndex(IdFromBytes(31, 255), IdFromBytes(0, 0)) == Ok(2)
  {
    FixtureC1();
    FixtureC2();
    FixtureC3();
  }

  lemma FixtureC1()
    ensures DifferingBitIndex(IdFromBytes(127, 255), IdFromBytes(0, 0)) == Ok(0)
  {
    Pow2Table();
    assert Xor(0, 1, 1) == 1;
    DifferingBitIndexOfTrailingOnes(0x7FFF, 0, 0, 1, 15);
  }

  lemma FixtureC2()
    ensures DifferingBitIndex(IdFromBytes(63, 255), IdFromBytes(0, 0)) == Ok(1)
  {
    Pow2Table();
    assert Xor(0, 3, 2) == 3;
    DifferingBitIndexOfTrailingOnes(0x3FFF, 0, 0, 3, 14);
  }

  lemma FixtureC3()
    ensures DifferingBitIndex(IdFromBytes(31, 255), IdFromBytes(0, 0)) == Ok(2)
  {
    Pow2Table();
    assert Xor(0, 1, 1) == 1;
    assert Xor(0, 3, 2) == 2 * Xor(0, 1, 1) + 1;
    assert Xor(0, 7, 3) == 2 * Xor(0, 3, 2) + 1;
    DifferingBitIndexOfTrailingOnes(0x1FFF, 0, 0, 7, 13);
  }
}

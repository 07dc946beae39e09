/**
 * The routing table's lookup, removal and ordering scenarios, on the two-byte ids
 * the model uses.  A test id built from two bytes is those bytes followed by 0x01
 * padding, and the XOR of two such ids is the XOR of their first two bytes
 * followed by zero bytes, so distances and bucket ids depend on the first two
 * bytes alone.
 */
module KadRoutingFixtures {
  import opened Wrappers
  import opened Bytes
  import opened BitArith
  import opened KadIds
  import opened KadPartition
  import opened KadStore
  import opened KadTable
  import opened KadRouting
  import opened StorjNodeIds

  /** The two-byte id the model uses for a full-length node id. */
  function KadId(id: NodeId): (r: Id)
    ensures r / 256 == id[0] && r % 256 == id[1]
  {
    IdFromBytes(id[0], id[1])
  }

  /**
   * Ids made from two bytes keep them as their model id, and their XOR is the
   * two-byte XOR followed by zero bytes: the padding never changes a distance.
   */
  lemma TwoByteIds(h1: Byte, l1: Byte, h2: Byte, l2: Byte)
    ensures KadId(NodeIdFromBytes([h1, l1])) == IdFromBytes(h1, l1)
    ensures XorTwoIds(NodeIdFromBytes([h1, l1]), NodeIdFromBytes([h2, l2])) ==
      XorTwoIds([h1, l1], [h2, l2]) + seq(NODE_ID_SIZE - 2, _ => 0)
    ensures var x := XorTwoIds([h1, l1], [h2, l2]);
      Distance(IdFromBytes(h1, l1), IdFromBytes(h2, l2)) == IdFromBytes(x[0], x[1])
  {
    var pad := seq(NODE_ID_SIZE - 2, _ => PAD);
    assert NodeIdFromBytes([h1, l1]) == [h1, l1] + pad;
    assert NodeIdFromBytes([h2, l2]) == [h2, l2] + pad;
    XorTwoIdsPadded([h1, l1], [h2, l2], pad);
    XorTwoIdsIsDistance(h1, l1, h2, l2);
  }

  /** The ids of the sortByXOR scenario lie at these distances from 7FFF. */
  lemma SortDistances()
    ensures Distance(0x7FFF, 0x7FFF) == 0
    ensures Distance(0xFFFF, 0x7FFF) == 0x8000
    ensures Distance(0xBFFF, 0x7FFF) == 0xC000
    ensures Distance(0x8FFF, 0x7FFF) == 0xF000
    ensures Distance(0x85FF, 0x7FFF) == 0xFA00
  {
    HighByteDistance(0xFF);
    HighByteDistance(0xBF);
    HighByteDistance(0x8F);
    HighByteDistance(0x85);
  }

  /**
   * An id with its top bit set that ends in FF lies from 7FFF at its high byte
   * XOR 7F, shifted up a byte: the top bit stays and the other seven flip.
   */
  lemma HighByteDistance(h: nat)
    requires 0x80 <= h < 0x100
    ensures Distance(h * 256 + 0xFF, 0x7FFF) == (0x17F - h) * 256
  {
    var x := Xor(h, 0x7F, 8);
    assert x == 0x17F - h by {
      Pow2Table();
      XorConcat(1, h - 0x80, 0, 0x7F, 1, 7);
      XorAllOnes(h - 0x80, 7);
      assert Xor(1, 0, 1) == 1;
      assert h == 1 * Pow2(7) + (h - 0x80) && 0x7F == 0 * Pow2(7) + 0x7F;
    }
    assert Xor(h * 256 + 0xFF, 0x7F * 256 + 0xFF, 16) == x * 256 by {
      Pow2Table();
      XorTrailingOnes(h, 0x7F, 8, 8);
    }
    assert 0x7FFF == 0x7F * 256 + 0xFF;
  }

  /**
   * sortByXOR of the stored keys 7FFF, 85FF, 8FFF, BFFF, FFFF around 7FFF: any
   * ordering SortByXor may leave is 7FFF, FFFF, BFFF, 8FFF, 85FF.
   */
  lemma SortByXorFixture(s: seq<Id>)
    requires multiset(s) == multiset([0x7FFF, 0x85FF, 0x8FFF, 0xBFFF, 0xFFFF])
    requires SortedByDistance(s, 0x7FFF)
    ensures s == [0x7FFF, 0xFFFF, 0xBFFF, 0x8FFF, 0x85FF]
  {
    ExpectedOrderSorted();
    SameKeys();
    SortedByDistanceUnique(s, [0x7FFF, 0xFFFF, 0xBFFF, 0x8FFF, 0x85FF], 0x7FFF);
  }

  /** The expected order holds the stored keys. */
  lemma SameKeys()
    ensures multiset([0x7FFF, 0xFFFF, 0xBFFF, 0x8FFF, 0x85FF]) == multiset([0x7FFF, 0x85FF, 0x8FFF, 0xBFFF, 0xFFFF])
  {
    assert multiset([0x7FFF, 0xFFFF, 0xBFFF, 0x8FFF, 0x85FF]) == multiset{0x7FFF, 0xFFFF, 0xBFFF, 0x8FFF, 0x85FF};
    assert multiset([0x7FFF, 0x85FF, 0x8FFF, 0xBFFF, 0xFFFF]) == multiset{0x7FFF, 0x85FF, 0x8FFF, 0xBFFF, 0xFFFF};
  }

  /** 7FFF, FFFF, BFFF, 8FFF, 85FF are in ascending distance from 7FFF. */
  lemma ExpectedOrderSorted()
    ensures SortedByDistance([0x7FFF, 0xFFFF, 0xBFFF, 0x8FFF, 0x85FF], 0x7FFF)
  {
    var e: seq<Id> := [0x7FFF, 0xFFFF, 0xBFFF, 0x8FFF, 0x85FF];
    SortDistances();
    assert e[0] == 0x7FFF && e[1] == 0xFFFF && e[2] == 0xBFFF && e[3] == 0x8FFF && e[4] == 0x85FF;
    ChainSorted(e, 0x7FFF);
  }

  /** The table of local node B7FF with buckets 7FFF and FFFF, holding 2FFF and 6FFF too. */
  function TwoBuckets(): Table {
    Table(0xB7FF, 6, 2, [0x7FFF, 0xFFFF],
      [Node(0x2FFF, None), Node(0x6FFF, None), Node(0xB7FF, None)], map[])
  }

  /** Only bucket FFFF holds the local node B7FF. */
  lemma ContainsLocalFixture()
    ensures ContainsLocal(TwoBuckets(), 0xFFFF)
    ensures !ContainsLocal(TwoBuckets(), 0x7FFF)
  {
  }

  /** Bucket FFFF holds B7FF; bucket 7FFF holds 2FFF and 6FFF, ascending; FF00 is no bucket. */
  lemma NodeIdsWithinFixture()
    ensures NodeIdsWithin(TwoBuckets(), 0xFFFF) == Ok([0xB7FF])
    ensures NodeIdsWithin(TwoBuckets(), 0x7FFF) == Ok([0x2FFF, 0x6FFF])
    ensures NodeIdsWithin(TwoBuckets(), 0xFF00) == Err(BucketNotFound)
  {
    var t := TwoBuckets();
    IndexOfBoundary(t.buckets, 0);
    IndexOfBoundary(t.buckets, 1);
    assert Members(t, 0) == [Node(0x2FFF, None), Node(0x6FFF, None)];
    assert Members(t, 1) == [Node(0xB7FF, None)];
    var high: seq<Id> := [0xB7FF];
    var low: seq<Id> := [0x2FFF, 0x6FFF];
    assert Ids(Members(t, 1)) == high;
    assert Ids(Members(t, 0)) == low;
    assert NodeIdsWithin(t, 0xFFFF) == Ok(high);
    assert NodeIdsWithin(t, 0x7FFF) == Ok(low);
  }

  /** The only bucket of local node FFFF has room until it holds six records. */
  lemma HasRoomFixture()
    ensures HasRoom(NewTable(Node(0xFFFF, None), 6, 2), 0xFFFF) == Ok(true)
    ensures HasRoom(Table(0xFFFF, 6, 2, [0xFFFF],
      [Node(0x007F, None), Node(0x3FFF, None), Node(0x7FFF, None),
       Node(0x9FFF, None), Node(0xBFFF, None), Node(0xFFFF, None)], map[]), 0xFFFF) == Ok(false)
  {
  }

  /** Local node "AA" with "BB" stored and "CC" cached for the only bucket. */
  function BeforeRemove(): Table {
    Table(0x4141, 6, 2, [0xFFFF], [Node(0x4141, None), Node(0x4242, None)],
      map[0xFFFF := [Node(0x4343, None)]])
  }

  /**
   * Removing "BB" promotes "CC" and empties the cache; removing the absent "DD"
   * afterwards changes nothing.
   */
  lemma RemoveNodeFixture()
    ensures RemoveNode(BeforeRemove(), 0x4242) ==
      BeforeRemove().(nodes := [Node(0x4141, None), Node(0x4343, None)], cache := map[0xFFFF := []])
    ensures var t := RemoveNode(BeforeRemove(), 0x4242);
      RemoveNode(t, 0x4444) == t
  {
    var t := BeforeRemove();
    assert KBucketId(t, 0x4242) == 0xFFFF;
    assert Delete(t.nodes, 0x4242) == [Node(0x4141, None)];
  }

  /** Updating "BB" with an address replaces its record; updating an unknown node fails. */
  lemma UpdateNodeFixture()
    ensures UpdateNode(BeforeRemove(), Node(0x4242, Some(NodeAddress("BB")))) ==
      Ok(BeforeRemove().(nodes := [Node(0x4141, None), Node(0x4242, Some(NodeAddress("BB")))]))
    ensures UpdateNode(BeforeRemove(), Node(0x4444, None)) == Err(NodeNotFound)
  {
    var n := Node(0x4242, Some(NodeAddress("BB")));
    assert Put([Node(0x4242, None)], n) == [n];
    assert Put(BeforeRemove().nodes, n) == [Node(0x4141, None)] + Put([Node(0x4242, None)], n);
    assert Find(BeforeRemove().nodes, 0x4242).Some?;
    assert [Node(0x4141, None)] + [n] == [Node(0x4141, None), n];
    assert UpdateNode(BeforeRemove(), n) == Ok(BeforeRemove().(nodes := Put(BeforeRemove().nodes, n)));
  }
}

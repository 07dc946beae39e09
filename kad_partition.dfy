/**
 * The routing table's k-bucket boundaries.  Each bucket is named by its id, the
 * inclusive upper end of the ids it covers; the bucket ids are kept in ascending
 * order and the all-ones id is always among them, so the boundaries partition the
 * id space into consecutive ranges.  A bucket produced only by halving splits
 * covers an aligned block whose size is a power of two (a leaf of the binary
 * trie of Kademlia, section 2.4 of the paper by Maymounkov and Mazieres).
 */
module KadPartition {
  import opened Wrappers
  import opened BitArith
  import opened KadIds

  /** Strictly ascending ids. */
  predicate Ascending(bs: seq<Id>) {
    forall i, j :: 0 <= i < j < |bs| ==> bs[i] < bs[j]
  }

  /** Strictly ascending bucket ids whose last element is the all-ones id. */
  predicate WellFormed(bs: seq<Id>) {
    |bs| > 0 && bs[|bs| - 1] == MAX_ID && Ascending(bs)
  }

  /** The exclusive lower end of bucket i: the previous bucket id, or -1 for the first bucket. */
  function Lower(bs: seq<Id>, i: nat): int
    requires i < |bs|
  {
    if i == 0 then -1 else bs[i - 1]
  }

  /** The number of ids bucket i covers. */
  function Size(bs: seq<Id>, i: nat): int
    requires i < |bs|
  {
    bs[i] - Lower(bs, i)
  }

  /** Bucket i holds id: the id is above the previous bucket id and at most bucket id i. */
  predicate InBucket(bs: seq<Id>, i: nat, id: int)
    requires i < |bs|
  {
    Lower(bs, i) < id <= bs[i]
  }

  /** The first bucket id at or after position i that is at least id. */
  function FirstAtLeast(bs: seq<Id>, id: Id, i: nat): (r: nat)
    requires WellFormed(bs) && i < |bs| && (i == 0 || bs[i - 1] < id)
    ensures i <= r < |bs| && InBucket(bs, r, id)
    decreases |bs| - i
  {
    if id <= bs[i] then i else FirstAtLeast(bs, id, i + 1)
  }

  /** keyToBucketID / getKBucketID: the bucket of an id is the smallest bucket id that is at least the id. */
  function BucketIndex(bs: seq<Id>, id: Id): (r: nat)
    requires WellFormed(bs)
    ensures r < |bs| && InBucket(bs, r, id)
  {
    FirstAtLeast(bs, id, 0)
  }

  /** The buckets partition the id space: every id is in exactly one bucket. */
  lemma BucketIndexUnique(bs: seq<Id>, id: Id, j: nat)
    requires WellFormed(bs) && j < |bs| && InBucket(bs, j, id)
    ensures BucketIndex(bs, id) == j
  {
  }

  /** No id lies in two buckets. */
  lemma InBucketDisjoint(bs: seq<Id>, i: nat, j: nat, id: int)
    requires WellFormed(bs) && i < |bs| && j < |bs| && i != j && InBucket(bs, i, id)
    ensures !InBucket(bs, j, id)
  {
    if j < i {
      assert bs[j] <= Lower(bs, i);
    } else {
      assert bs[i] <= Lower(bs, j);
    }
  }

  /** The position of a bucket id among the boundaries. */
  function IndexOf(bs: seq<Id>, b: Id): (r: Option<nat>)
    ensures r.Some? ==> r.value < |bs| && bs[r.value] == b
    ensures r.None? <==> b !in bs
  {
    if |bs| == 0 then None
    else if bs[0] == b then Some(0)
    else match IndexOf(bs[1..], b)
      case None => None
      case Some(j) => Some(j + 1)
  }

  lemma IndexOfBoundary(bs: seq<Id>, i: nat)
    requires WellFormed(bs) && i < |bs|
    ensures IndexOf(bs, bs[i]) == Some(i)
  {
    var r := IndexOf(bs, bs[i]);
    assert r.Some?;
  }

  /**
   * getKBucketRange: the pair (previous bucket id, bucket id), with the all-zero id
   * as the lower end of the first bucket; a bucket id that is not a boundary fails.
   */
  function KBucketRange(bs: seq<Id>, b: Id): (r: Result<(Id, Id), RoutingError>)
    ensures r.Err? <==> b !in bs
    ensures r.Err? ==> r.error == BucketNotFound
    ensures r.Ok? ==> r.value.1 == b
  {
    match IndexOf(bs, b)
    case None => Err(BucketNotFound)
    case Some(i) => Ok((if i == 0 then 0 else bs[i - 1], b))
  }

  /** With well-formed boundaries the range of bucket i is its (exclusive) lower end and its id. */
  lemma KBucketRangeOfBoundary(bs: seq<Id>, i: nat)
    requires WellFormed(bs) && i < |bs|
    ensures KBucketRange(bs, bs[i]) == Ok((if i == 0 then 0 else bs[i - 1], bs[i]))
    ensures forall id: Id :: InBucket(bs, i, id) <==>
      (i == 0 || KBucketRange(bs, bs[i]).value.0 < id) && id <= KBucketRange(bs, bs[i]).value.1
  {
    IndexOfBoundary(bs, i);
  }

  /**
   * determineLeafDepth: one more than the differing bit index of the bucket id and
   * the previous bucket id, the all-zero id standing in before the first bucket.
   */
  function LeafDepth(bs: seq<Id>, b: Id): (r: Result<int, RoutingError>)
    ensures r.Ok? ==> 0 <= r.value <= 16
    ensures b !in bs ==> r == Err(BucketNotFound)
  {
    match IndexOf(bs, b)
    case None => Err(BucketNotFound)
    case Some(i) =>
      var pred := if i == 0 then 0 else bs[i - 1];
      match DifferingBitIndex(b, pred)
      case Err(e) => Err(e)
      case Ok(d) => Ok(d + 1)
  }

  /** Exact base-2 logarithm of powers of two (the floor of it otherwise). */
  function Log2(n: nat): nat
    requires n >= 1
  {
    if n == 1 then 0 else 1 + Log2(n / 2)
  }

  lemma {:induction false} Log2Pow2(m: nat)
    ensures Log2(Pow2(m)) == m
    decreases m
  {
    if m > 0 {
      Log2Pow2(m - 1);
      assert Pow2(m) / 2 == Pow2(m - 1);
    }
  }

  predicate IsPow2(n: int) {
    n >= 1 && Pow2(Log2(n)) == n
  }

  /** Bucket i covers an aligned block of ids whose size is a power of two. */
  predicate DyadicAt(bs: seq<Id>, i: nat)
    requires i < |bs|
  {
    IsPow2(Size(bs, i)) && (Lower(bs, i) + 1) % Size(bs, i) == 0
  }

  /** Every bucket covers an aligned block of ids whose size is a power of two. */
  predicate Dyadic(bs: seq<Id>) {
    forall i :: 0 <= i < |bs| ==> DyadicAt(bs, i)
  }

  /** The bucket ids of a fresh table: one bucket covering every id. */
  lemma SingleBucketDyadic()
    ensures WellFormed([MAX_ID]) && Dyadic([MAX_ID])
  {
    Pow2Table();
    Log2Pow2(16);
  }

  /** A power of two that fits in the id space of 2^16 ids has an exponent of at most 16. */
  lemma Pow2Bound(m: nat)
    requires Pow2(m) <= 0x1_0000
    ensures m <= 16 && (Pow2(m) < 0x1_0000 ==> m < 16)
  {
    Pow2Table();
    if m > 16 {
      Pow2Monotone(17, m);
    } else if m == 16 {
    }
  }

  /** A bucket of size 2^m starting at base = k * 2^m, written out. */
  lemma BlockShape(bs: seq<Id>, i: nat) returns (k: nat, m: nat)
    requires WellFormed(bs) && Dyadic(bs) && i < |bs|
    ensures Size(bs, i) == Pow2(m) && m == Log2(Size(bs, i)) && Lower(bs, i) + 1 == k * Pow2(m)
    ensures m <= 16 && (i > 0 ==> k >= 1 && m < 16)
  {
    assert DyadicAt(bs, i);
    m := Log2(Size(bs, i));
    var s := Pow2(m);
    var base := Lower(bs, i) + 1;
    k := base / s;
    MulTimesDiv(base, s);
    Pow2Bound(m);
    if i > 0 {
      assert k != 0;
    }
  }

  /** A multiple of s is s times its quotient. */
  lemma MulTimesDiv(x: nat, s: nat)
    requires s > 0 && x % s == 0
    ensures (x / s) * s == x
  {
  }

  /**
   * In a dyadic partition the leaf depth of a bucket of at least two ids is its
   * depth in the binary trie: 16 minus the base-2 logarithm of its size.
   */
  lemma LeafDepthOfDyadic(bs: seq<Id>, i: nat)
    requires WellFormed(bs) && Dyadic(bs) && i < |bs| && Size(bs, i) >= 2
    ensures LeafDepth(bs, bs[i]) == Ok(16 - Log2(Size(bs, i)))
  {
    var k, m := BlockShape(bs, i);
    IndexOfBoundary(bs, i);
    if i == 0 {
      FirstLeafDepth(bs[0], m);
    } else {
      assert m >= 1;
      InnerLeafDepth(bs[i], bs[i - 1], k, m);
    }
  }

  /** The first bucket, of size 2^m, ends at 2^m - 1; its leaf depth is 16 - m. */
  lemma FirstLeafDepth(b: Id, m: nat)
    requires m <= 16 && b == Pow2(m) - 1 && b != 0
    ensures DifferingBitIndex(b, 0) == Ok(15 - m)
  {
    Pow2Table();
    assert ZeroAsAllOnes(0) == 0xFFFF && ZeroAsAllOnes(b) == b;
    XorAllOnes(b, 16);
    var x := Xor(b, 0xFFFF, 16);
    assert x == Pow2(16) - Pow2(m);
    if m < 16 {
      TrailingZerosOfHighOnes(m, 16);
      assert TrailingZeros(x) == m;
    } else {
      assert x == 0;
    }
  }

  /** A later bucket of size 2^m ends at (k+1) * 2^m - 1 and its predecessor at k * 2^m - 1. */
  lemma InnerLeafDepth(b: Id, pred: Id, k: nat, m: nat)
    requires 1 <= m < 16 && k >= 1
    requires pred == k * Pow2(m) - 1 && b == pred + Pow2(m)
    ensures DifferingBitIndex(b, pred) == Ok(15 - m)
  {
    assert pred >= 1 by {
      assert Pow2(1) == 2;
      MulMono(Pow2(m), 1, k);
      Pow2Monotone(1, m);
    }
    var x := Xor(b, pred, 16);
    assert Pow2(16) == 65536 by { Pow2Table(); }
    NeighbourBlockEnds(k, m, 16, b, pred);
    NeighbourIndex(b, pred, m, x);
  }

  /** Two ids of which neither is zero differ first where their XOR has its lowest set bit. */
  lemma NeighbourIndex(b: Id, pred: Id, m: nat, x: nat)
    requires pred >= 1 && b > pred && x == Xor(b, pred, 16) && x > 0 && TrailingZeros(x) == m
    ensures DifferingBitIndex(b, pred) == Ok(15 - m)
  {
    assert ZeroAsAllOnes(b) == b && ZeroAsAllOnes(pred) == pred;
    DifferingBitIndexOfXor(b, pred, m);
  }

  /**
   * The split point of a dyadic bucket of at least two ids, taken at its leaf depth,
   * is the last id of its lower half.
   */
  lemma SplitPointOfDyadic(bs: seq<Id>, i: nat)
    requires WellFormed(bs) && Dyadic(bs) && i < |bs| && Size(bs, i) >= 2
    ensures 0 <= 16 - Log2(Size(bs, i)) < 16
    ensures SplitBucket(bs[i], 16 - Log2(Size(bs, i))) == Lower(bs, i) + Size(bs, i) / 2
  {
    var k, m := BlockShape(bs, i);
    assert m >= 1;
    var h := Pow2(m - 1);
    MulTwice(k + 1, h, Pow2(m));
    MulTwice(k, h, Pow2(m));
    assert bs[i] == (k + 1) * Pow2(m) - 1;
    BlockTopBit(k, m - 1);
    assert Size(bs, i) / 2 == h;
  }

  /** createOrUpdateKBucket: insert a bucket id into the ordered set of bucket ids. */
  function InsertBoundary(bs: seq<Id>, s: Id): seq<Id> {
    if |bs| == 0 then [s]
    else if s < bs[0] then [s] + bs
    else if s == bs[0] then bs
    else [bs[0]] + InsertBoundary(bs[1..], s)
  }

  /** Inserting keeps the ids ascending and adds exactly the new id. */
  lemma {:induction false} InsertBoundaryAscending(bs: seq<Id>, s: Id)
    requires Ascending(bs)
    ensures Ascending(InsertBoundary(bs, s))
    ensures forall x :: x in InsertBoundary(bs, s) <==> x in bs || x == s
    decreases |bs|
  {
    if |bs| == 0 {
    } else if s < bs[0] {
      FrontAscending(bs, s);
    } else if s > bs[0] {
      var rest := InsertBoundary(bs[1..], s);
      TailAscending(bs);
      InsertBoundaryAscending(bs[1..], s);
      HeadThenRest(bs, s, rest);
      assert InsertBoundary(bs, s) == [bs[0]] + rest;
    }
  }

  /** An id below the first of an ascending sequence can go in front of it. */
  lemma FrontAscending(bs: seq<Id>, s: Id)
    requires Ascending(bs) && |bs| > 0 && s < bs[0]
    ensures Ascending([s] + bs)
    ensures forall x :: x in [s] + bs <==> x in bs || x == s
  {
    forall y | y in bs
      ensures s < y
    {
      var i :| 0 <= i < |bs| && bs[i] == y;
      assert i == 0 || bs[0] < bs[i];
    }
    ConsAscending(s, bs);
  }

  /** The tail of an ascending sequence is ascending and lies above its head. */
  lemma TailAscending(bs: seq<Id>)
    requires Ascending(bs) && |bs| > 0
    ensures Ascending(bs[1..])
    ensures forall x :: x in bs <==> x == bs[0] || x in bs[1..]
  {
    assert bs == [bs[0]] + bs[1..];
  }

  /** Putting the head back in front of the tail with the new id inserted. */
  lemma HeadThenRest(bs: seq<Id>, s: Id, rest: seq<Id>)
    requires Ascending(bs) && |bs| > 0 && s > bs[0] && Ascending(rest)
    requires forall x :: x in bs <==> x == bs[0] || x in bs[1..]
    requires forall x :: x in rest <==> x in bs[1..] || x == s
    ensures Ascending([bs[0]] + rest)
    ensures forall x :: x in [bs[0]] + rest <==> x in bs || x == s
  {
    forall y | y in rest
      ensures bs[0] < y
    {
      if y != s {
        var i :| 1 <= i < |bs| && bs[i] == y;
      }
    }
    ConsAscending(bs[0], rest);
  }

  /** An id below every id of an ascending sequence can go in front of it. */
  lemma ConsAscending(x: Id, rest: seq<Id>)
    requires Ascending(rest) && forall y :: y in rest ==> x < y
    ensures Ascending([x] + rest)
  {
    var r := [x] + rest;
    forall i, j | 0 <= i < j < |r|
      ensures r[i] < r[j]
    {
      if i > 0 {
        assert r[i] == rest[i - 1] && r[j] == rest[j - 1];
      } else {
        assert r[j] in rest;
      }
    }
  }

  /** Inserting an id that is already a bucket id changes nothing. */
  lemma {:induction false} InsertBoundaryPresent(bs: seq<Id>, s: Id)
    requires Ascending(bs) && s in bs
    ensures InsertBoundary(bs, s) == bs
    decreases |bs|
  {
    if s != bs[0] {
      assert Ascending(bs[1..]);
      assert s in bs[1..];
      InsertBoundaryPresent(bs[1..], s);
    }
  }

  /** The all-ones id stays last, so inserting into well-formed bucket ids keeps them well formed. */
  lemma InsertBoundaryWellFormed(bs: seq<Id>, s: Id)
    requires WellFormed(bs)
    ensures WellFormed(InsertBoundary(bs, s))
  {
    InsertBoundaryAscending(bs, s);
    var r := InsertBoundary(bs, s);
    assert MAX_ID in r;
  }

  /** A split point strictly inside bucket i lands at position i. */
  lemma {:induction false} InsertBoundaryAt(bs: seq<Id>, s: Id, i: nat)
    requires Ascending(bs) && i < |bs| && Lower(bs, i) < s < bs[i]
    ensures InsertBoundary(bs, s) == InsertAt(bs, i, s)
    decreases i
  {
    if i > 0 {
      var tail := bs[1..];
      assert Ascending(tail);
      assert Lower(tail, i - 1) < s;
      InsertBoundaryAt(tail, s, i - 1);
      assert bs[..i] == [bs[0]] + tail[..i - 1];
      assert bs[i..] == tail[i - 1..];
    }
  }

  /** The ids bs with s inserted at position i. */
  function InsertAt(bs: seq<Id>, i: nat, s: Id): (r: seq<Id>)
    requires i <= |bs|
    ensures |r| == |bs| + 1 && r[i] == s
    ensures forall j :: 0 <= j < i ==> r[j] == bs[j]
    ensures forall j :: i < j < |r| ==> r[j] == bs[j - 1]
  {
    bs[..i] + [s] + bs[i..]
  }

  /** Halving bucket i at s: the buckets before it and after it keep their ranges. */
  lemma SplitRanges(bs: seq<Id>, i: nat, s: Id)
    requires WellFormed(bs) && i < |bs| && Lower(bs, i) < s < bs[i]
    ensures WellFormed(InsertAt(bs, i, s))
  {
    var r := InsertAt(bs, i, s);
    forall a, b | 0 <= a < b < |r|
      ensures r[a] < r[b]
    {
      if a < i && b > i {
        assert r[b] == bs[b - 1];
        assert bs[a] <= Lower(bs, i);
      }
    }
  }

  /** Halving a dyadic bucket at its midpoint keeps the partition well formed and dyadic. */
  lemma SplitKeepsDyadic(bs: seq<Id>, i: nat) returns (s: Id)
    requires WellFormed(bs) && Dyadic(bs) && i < |bs| && Size(bs, i) >= 2
    ensures s == Lower(bs, i) + Size(bs, i) / 2 && Lower(bs, i) < s < bs[i]
    ensures var bs' := InsertAt(bs, i, s);
      WellFormed(bs') && Dyadic(bs') &&
      Size(bs', i) == Size(bs, i) / 2 && Size(bs', i + 1) == Size(bs, i) / 2
  {
    s := SplitHalves(bs, i);
    var bs' := InsertAt(bs, i, s);
    SplitRanges(bs, i, s);
    forall j | 0 <= j < |bs'|
      ensures DyadicAt(bs', j)
    {
      if j < i {
        assert Lower(bs', j) == Lower(bs, j) && bs'[j] == bs[j];
        assert DyadicAt(bs, j);
      } else if j > i + 1 {
        assert Lower(bs', j) == Lower(bs, j - 1) && bs'[j] == bs[j - 1];
        assert DyadicAt(bs, j - 1);
      }
    }
  }

  /** The two halves of a dyadic bucket are dyadic. */
  lemma SplitHalves(bs: seq<Id>, i: nat) returns (s: Id)
    requires WellFormed(bs) && Dyadic(bs) && i < |bs| && Size(bs, i) >= 2
    ensures s == Lower(bs, i) + Size(bs, i) / 2 && Lower(bs, i) < s < bs[i]
    ensures DyadicAt(InsertAt(bs, i, s), i) && DyadicAt(InsertAt(bs, i, s), i + 1)
    ensures Size(InsertAt(bs, i, s), i) == Size(bs, i) / 2 && Size(InsertAt(bs, i, s), i + 1) == Size(bs, i) / 2
  {
    var k, m := BlockShape(bs, i);
    assert m >= 1;
    var h := Pow2(m - 1);
    var base := Lower(bs, i) + 1;
    MulTwice(k, h, Pow2(m));
    assert Size(bs, i) / 2 == h;
    s := base + h - 1;
    HalvesAligned(base, h, k);
    Log2Pow2(m - 1);
    InsertedHalves(bs, i, s, h);
  }

  /** Inserting the midpoint s of an aligned bucket of size 2h leaves two aligned buckets of size h. */
  lemma InsertedHalves(bs: seq<Id>, i: nat, s: Id, h: int)
    requires i < |bs| && h >= 1 && Pow2(Log2(h)) == h
    requires s == Lower(bs, i) + h && bs[i] == s + h
    requires (Lower(bs, i) + 1) % h == 0 && (s + 1) % h == 0
    ensures DyadicAt(InsertAt(bs, i, s), i) && DyadicAt(InsertAt(bs, i, s), i + 1)
    ensures Size(InsertAt(bs, i, s), i) == h && Size(InsertAt(bs, i, s), i + 1) == h
  {
    var bs' := InsertAt(bs, i, s);
    assert Lower(bs', i) == Lower(bs, i) && Lower(bs', i + 1) == s && bs'[i + 1] == bs[i];
    BlockDyadic(bs', i, h);
    BlockDyadic(bs', i + 1, h);
  }

  /** A bucket of a power-of-two size aligned to that size is dyadic. */
  lemma BlockDyadic(bs: seq<Id>, i: nat, h: int)
    requires i < |bs| && Size(bs, i) == h && h >= 1 && Pow2(Log2(h)) == h && (Lower(bs, i) + 1) % h == 0
    ensures DyadicAt(bs, i)
  {
  }

  /** Both halves of an aligned block of size 2h are aligned blocks of size h. */
  lemma HalvesAligned(base: nat, h: nat, k: nat)
    requires h >= 1 && base == 2 * (k * h)
    ensures base % h == 0 && (base + h) % h == 0
  {
    DivUnique(base, h, 2 * k, 0);
    DivUnique(base + h, h, 2 * k + 1, 0);
  }

  // The routing table's own fixtures.

  lemma KBucketRangeFixtures()
    ensures var bs := [IdFromBytes(63, 255), IdFromBytes(127, 255), IdFromBytes(255, 255)];
      KBucketRange(bs, IdFromBytes(255, 255)) == Ok((IdFromBytes(127, 255), IdFromBytes(255, 255))) &&
      KBucketRange(bs, IdFromBytes(127, 255)) == Ok((IdFromBytes(63, 255), IdFromBytes(127, 255))) &&
      KBucketRange(bs, IdFromBytes(63, 255)) == Ok((0, IdFromBytes(63, 255)))
  {
  }

  lemma LeafDepthFixturesA()
    ensures LeafDepth([0xFFFF], 0xFFFF) == Ok(0)
    ensures LeafDepth([0x7FFF, 0xFFFF], 0x7FFF) == Ok(1)
  {
    DifferingBitIndexFixturesA();
    DifferingBitIndexFixturesC();
  }

  lemma LeafDepthFixturesB()
    ensures LeafDepth([0x3FFF, 0x7FFF, 0xFFFF], 0xFFFF) == Ok(1)
  {
    Pow2Table();
    DifferingBitIndexOfTrailingOnes(0xFFFF, 0x7FFF, 1, 0, 15);
  }

  lemma LeafDepthFixturesC()
    ensures LeafDepth([0x3FFF, 0x7FFF, 0xFFFF], 0x7FFF) == Ok(2)
  {
    Pow2Table();
    DifferingBitIndexOfTrailingOnes(0x7FFF, 0x3FFF, 1, 0, 14);
  }

  lemma LeafDepthFixturesD()
    ensures LeafDepth([0x3FFF, 0x7FFF, 0xFFFF], 0x3FFF) == Ok(2)
  {
    DifferingBitIndexFixturesC();
  }
}

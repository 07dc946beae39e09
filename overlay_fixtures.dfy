/**
 * The overlay cache scenarios, over any encoding that round-trips and the
 * node records of the tests.
 */
module OverlayFixtures {
  import opened Wrappers
  import opened Bytes
  import opened OverlayCache

  const N1 := Node("", Some(NodeAddress(Tcp, "127.0.0.1:9999")))
  const N2 := Node("", Some(NodeAddress(Tcp, "127.0.0.1:9998")))
  const FOO := Node("foo", Some(NodeAddress(Tcp, "127.0.0.1:9999")))

  /** Get of a stored key gives its record, with one call to the store, on every backend. */
  method ValidGetFixture(codec: Codec, missingIsError: bool) returns (r: Result<Option<Node>, CacheError>, calls: nat)
    requires RoundTrips(codec)
    ensures r == Ok(Some(N1)) && calls == 1
  {
    var db := new KvStore(map["foo" := codec.marshal(N1)], missingIsError);
    var cache := new Cache(db, codec);
    r := cache.Get("foo", None);
    calls := db.getCalled;
    assert codec.unmarshal(codec.marshal(N1)) == Some(N1);
  }

  /** Get of a missing key fails with KeyNotFound on Bolt and Redis, and gives no record on the mock. */
  method MissingGetFixture(codec: Codec) returns (backend: Result<Option<Node>, CacheError>, mock: Result<Option<Node>, CacheError>)
    ensures backend == Err(KeyNotFound("bar")) && mock == Ok(None)
  {
    var stored := map["foo" := codec.marshal(N1)];
    var db := new KvStore(stored, true);
    var cache := new Cache(db, codec);
    backend := cache.Get("bar", None);
    var mockDb := new KvStore(stored, false);
    var mockCache := new Cache(mockDb, codec);
    mock := mockCache.Get("bar", None);
  }

  /** GetAll of a stored and a missing key gives the record and then no record, with one store call. */
  method MixedGetAllFixture(codec: Codec) returns (r: Result<seq<Option<Node>>, CacheError>, calls: nat)
    requires RoundTrips(codec)
    ensures r == Ok([Some(N1), None]) && calls == 1
  {
    var db := new KvStore(map["key1" := codec.marshal(N1)], false);
    var cache := new Cache(db, codec);
    r := cache.GetAll(["key1", "key3"], None);
    calls := db.getAllCalled;
    assert codec.unmarshal(codec.marshal(N1)) == Some(N1);
    GetAllPositions(codec, map["key1" := codec.marshal(N1)], ["key1", "key3"]);
    assert r.value[0] == Some(N1) && r.value[1] == None;
    assert r.value == [Some(N1), None];
  }

  /** GetAll of two empty keys in an empty store gives two missing records. */
  method EmptyKeysFixture(codec: Codec) returns (r: Result<seq<Option<Node>>, CacheError>)
    ensures r == Ok([None, None])
  {
    var db := new KvStore(map[], false);
    var cache := new Cache(db, codec);
    r := cache.GetAll(["", ""], None);
    GetAllPositions(codec, map[], ["", ""]);
    assert r.value[0] == None && r.value[1] == None;
    assert r.value == [None, None];
  }

  /** GetAll of no keys fails with an overlay error and never calls the store. */
  method NoKeysFixture(codec: Codec) returns (r: Result<seq<Option<Node>>, CacheError>, calls: nat)
    ensures r == Err(OverlayError("no keys provided")) && calls == 0
  {
    var db := new KvStore(map[], false);
    var cache := new Cache(db, codec);
    r := cache.GetAll([], None);
    calls := db.getAllCalled;
  }

  /** Put succeeds with one store call, and decoding what it stored gives the node back. */
  method PutFixture(codec: Codec) returns (err: Option<CacheError>, stored: Option<Node>, calls: nat)
    requires RoundTrips(codec)
    ensures err.None? && stored == Some(FOO) && calls == 1
  {
    var db := new KvStore(map[], false);
    var cache := new Cache(db, codec);
    err := cache.Put("foo", FOO, None);
    calls := db.putCalled;
    stored := codec.unmarshal(db.data["foo"]);
  }
}

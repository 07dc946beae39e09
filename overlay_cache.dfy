/**
 * The overlay cache: node records kept, encoded, in a key/value store.  The
 * store is the test suite's mock, which counts the calls made on it; whether a
 * missing key is an error (the Bolt and Redis backends) or a nil value (the
 * mock) is a property of the store.  Whether a store call fails is given to
 * each call as `fail`.  The protocol-buffer encoding is a pair of functions
 * given to the cache.
 */
module OverlayCache {
  import opened Wrappers
  import opened Bytes

  datatype Transport = Tcp

  datatype NodeAddress = NodeAddress(transport: Transport, address: string)

  /** An overlay node record. */
  datatype Node = Node(id: string, address: Option<NodeAddress>)

  /** The encoding of node records; `unmarshal` fails on bytes that are no record. */
  datatype Codec = Codec(marshal: Node -> seq<Byte>, unmarshal: seq<Byte> -> Option<Node>)

  /** Decoding an encoded record gives the record back. */
  ghost predicate RoundTrips(codec: Codec) {
    forall n :: codec.unmarshal(codec.marshal(n)) == Some(n)
  }

  datatype CacheError =
    | KeyNotFound(key: string)
    | OverlayError(message: string)
    | StoreFailed(message: string)   // any other failure of the backing store

  const NO_KEYS := "no keys provided"
  const NOT_A_NODE := "could not unmarshal non-nil node"

  /** A key/value store that counts the calls made on it. */
  class KvStore {
    var data: map<string, seq<Byte>>
    var getCalled: nat
    var getAllCalled: nat
    var putCalled: nat
    /** Whether Get of a missing key fails (true for Bolt and Redis, false for the mock). */
    const missingIsError: bool

    constructor(data: map<string, seq<Byte>>, missingIsError: bool)
      ensures this.data == data && this.missingIsError == missingIsError
      ensures getCalled == 0 && getAllCalled == 0 && putCalled == 0
    {
      this.data := data;
      this.missingIsError := missingIsError;
      getCalled := 0;
      getAllCalled := 0;
      putCalled := 0;
    }

    /**
     * The value under key; a missing key fails or gives no value, as the store
     * does.  A failing call reports the failure.
     */
    method Get(key: string, fail: Option<string>) returns (r: Result<Option<seq<Byte>>, CacheError>)
      modifies this
      ensures data == old(data) && getCalled == old(getCalled) + 1
      ensures getAllCalled == old(getAllCalled) && putCalled == old(putCalled)
      ensures fail.Some? ==> r == Err(StoreFailed(fail.value))
      ensures fail.None? && key in data ==> r == Ok(Some(data[key]))
      ensures fail.None? && key !in data && missingIsError ==> r == Err(KeyNotFound(key))
      ensures fail.None? && key !in data && !missingIsError ==> r == Ok(None)
    {
      getCalled := getCalled + 1;
      if fail.Some? {
        r := Err(StoreFailed(fail.value));
      } else if key in data {
        r := Ok(Some(data[key]));
      } else if missingIsError {
        r := Err(KeyNotFound(key));
      } else {
        r := Ok(None);
      }
    }

    /**
     * The values under the keys, in order, with no value for each missing key;
     * a failing call reports the failure.
     */
    method GetAll(keys: seq<string>, fail: Option<string>) returns (r: Result<seq<Option<seq<Byte>>>, CacheError>)
      modifies this
      ensures data == old(data) && getAllCalled == old(getAllCalled) + 1
      ensures getCalled == old(getCalled) && putCalled == old(putCalled)
      ensures fail.Some? ==> r == Err(StoreFailed(fail.value))
      ensures fail.None? ==> r == Ok(Values(data, keys))
    {
      getAllCalled := getAllCalled + 1;
      if fail.Some? {
        r := Err(StoreFailed(fail.value));
      } else {
        r := Ok(Values(data, keys));
      }
    }

    /** Stores value under key; a failing call reports the failure and stores nothing. */
    method Put(key: string, value: seq<Byte>, fail: Option<string>) returns (err: Option<CacheError>)
      modifies this
      ensures putCalled == old(putCalled) + 1
      ensures getCalled == old(getCalled) && getAllCalled == old(getAllCalled)
      ensures fail.Some? ==> err == Some(StoreFailed(fail.value)) && data == old(data)
      ensures fail.None? ==> err.None? && data == old(data)[key := value]
    {
      putCalled := putCalled + 1;
      if fail.Some? {
        err := Some(StoreFailed(fail.value));
      } else {
        data := data[key := value];
        err := None;
      }
    }
  }

  /** The value under each key, in order; no value for a missing key. */
  function Values(data: map<string, seq<Byte>>, keys: seq<string>): (vs: seq<Option<seq<Byte>>>)
    ensures |vs| == |keys|
    ensures forall i :: 0 <= i < |keys| ==> vs[i] == if keys[i] in data then Some(data[keys[i]]) else None
  {
    seq(|keys|, i requires 0 <= i < |keys| => if keys[i] in data then Some(data[keys[i]]) else None)
  }

  /** What Get answers for a key of a store. */
  function GetResult(codec: Codec, data: map<string, seq<Byte>>, missingIsError: bool, key: string): Result<Option<Node>, CacheError> {
    if key in data then
      (match codec.unmarshal(data[key])
       case Some(n) => Ok(Some(n))
       case None => Err(OverlayError(NOT_A_NODE)))
    else if missingIsError then Err(KeyNotFound(key))
    else Ok(None)
  }

  /**
   * The records of the values, in order, with no record for no value; the first
   * value that is no record fails the whole.
   */
  function DecodeAll(codec: Codec, vs: seq<Option<seq<Byte>>>): Result<seq<Option<Node>>, CacheError>
    decreases |vs|
  {
    if |vs| == 0 then Ok([])
    else
      var front := DecodeAll(codec, vs[..|vs| - 1]);
      if front.Err? then front
      else match vs[|vs| - 1]
        case None => Ok(front.value + [None])
        case Some(b) =>
          match codec.unmarshal(b)
          case Some(n) => Ok(front.value + [Some(n)])
          case None => Err(OverlayError(NOT_A_NODE))
  }

  /**
   * A decoding that succeeds has one entry per value: none where there is no
   * value, and the value's record otherwise.
   */
  lemma {:induction false} DecodeAllPositions(codec: Codec, vs: seq<Option<seq<Byte>>>)
    requires DecodeAll(codec, vs).Ok?
    ensures var ns := DecodeAll(codec, vs).value;
      |ns| == |vs| &&
      forall i :: 0 <= i < |vs| ==>
        (ns[i].None? <==> vs[i].None?) && (vs[i].Some? ==> codec.unmarshal(vs[i].value) == ns[i])
    decreases |vs|
  {
    if |vs| > 0 {
      var front := vs[..|vs| - 1];
      DecodeAllPositions(codec, front);
      forall i | 0 <= i < |vs| - 1 ensures vs[i] == front[i] {}
    }
  }

  /** Values that are all encoded records decode without failure. */
  lemma {:induction false} DecodeAllRecords(codec: Codec, vs: seq<Option<seq<Byte>>>)
    requires forall i :: 0 <= i < |vs| && vs[i].Some? ==> codec.unmarshal(vs[i].value).Some?
    ensures DecodeAll(codec, vs).Ok?
    decreases |vs|
  {
    if |vs| > 0 {
      DecodeAllRecords(codec, vs[..|vs| - 1]);
    }
  }

  /** The cache over a store. */
  class Cache {
    const db: KvStore
    const codec: Codec

    constructor(db: KvStore, codec: Codec)
      ensures this.db == db && this.codec == codec
    {
      this.db := db;
      this.codec := codec;
    }

    /**
     * Get: one call to the store; its failure, the record under key, or the
     * store's answer for a missing key.
     */
    method Get(key: string, fail: Option<string>) returns (r: Result<Option<Node>, CacheError>)
      modifies db
      ensures db.data == old(db.data) && db.getCalled == old(db.getCalled) + 1
      ensures db.getAllCalled == old(db.getAllCalled) && db.putCalled == old(db.putCalled)
      ensures fail.Some? ==> r == Err(StoreFailed(fail.value))
      ensures fail.None? ==> r == GetResult(codec, db.data, db.missingIsError, key)
    {
      var v := db.Get(key, fail);
      if v.Err? {
        return Err(v.error);
      }
      if v.value.None? {
        return Ok(None);
      }
      var n := codec.unmarshal(v.value.value);
      if n.None? {
        return Err(OverlayError(NOT_A_NODE));
      }
      r := Ok(Some(n.value));
    }

    /**
     * GetAll: an empty key list fails without calling the store; otherwise one
     * call to the store, whose failure is passed on, and the records of its
     * values, in order.
     */
    method GetAll(keys: seq<string>, fail: Option<string>) returns (r: Result<seq<Option<Node>>, CacheError>)
      modifies db
      ensures db.data == old(db.data) && db.getCalled == old(db.getCalled) && db.putCalled == old(db.putCalled)
      ensures |keys| == 0 ==> r == Err(OverlayError(NO_KEYS)) && db.getAllCalled == old(db.getAllCalled)
      ensures |keys| > 0 ==> db.getAllCalled == old(db.getAllCalled) + 1
      ensures |keys| > 0 && fail.Some? ==> r == Err(StoreFailed(fail.value))
      ensures |keys| > 0 && fail.None? ==> r == DecodeAll(codec, Values(db.data, keys))
    {
      if |keys| == 0 {
        return Err(OverlayError(NO_KEYS));
      }
      var got := db.GetAll(keys, fail);
      if got.Err? {
        return Err(got.error);
      }
      var vs := got.value;
      var ns: seq<Option<Node>> := [];
      for i := 0 to |vs|
        invariant DecodeAll(codec, vs[..i]) == Ok(ns)
      {
        assert vs[..i + 1][..i] == vs[..i];
        if vs[i].None? {
          ns := ns + [None];
        } else {
          var n := codec.unmarshal(vs[i].value);
          if n.None? {
            assert DecodeAll(codec, vs[..i + 1]) == Err(OverlayError(NOT_A_NODE));
            DecodeAllPrefixError(codec, vs, i + 1);
            r := Err(OverlayError(NOT_A_NODE));
            return;
          }
          ns := ns + [Some(n.value)];
        }
      }
      assert vs[..|vs|] == vs;
      r := Ok(ns);
    }

    /**
     * Put: one call to the store, which then holds the encoded record under
     * key; a failing store call is passed on and stores nothing.
     */
    method Put(key: string, node: Node, fail: Option<string>) returns (err: Option<CacheError>)
      modifies db
      ensures db.putCalled == old(db.putCalled) + 1
      ensures db.getCalled == old(db.getCalled) && db.getAllCalled == old(db.getAllCalled)
      ensures fail.Some? ==> err == Some(StoreFailed(fail.value)) && db.data == old(db.data)
      ensures fail.None? ==> err.None? && db.data == old(db.data)[key := codec.marshal(node)]
    {
      err := db.Put(key, codec.marshal(node), fail);
    }
  }

  /** A failure among the first values is the failure of them all. */
  lemma {:induction false} DecodeAllPrefixError(codec: Codec, vs: seq<Option<seq<Byte>>>, k: nat)
    requires k <= |vs| && DecodeAll(codec, vs[..k]).Err?
    ensures DecodeAll(codec, vs) == DecodeAll(codec, vs[..k])
    decreases |vs| - k
  {
    if k < |vs| {
      assert vs[..k + 1][..k] == vs[..k];
      DecodeAllPrefixError(codec, vs, k + 1);
    } else {
      assert vs[..k] == vs;
    }
  }

  /** After Put of a node, Get of its key gives the node back. */
  lemma PutGetRoundTrip(codec: Codec, data: map<string, seq<Byte>>, missingIsError: bool, key: string, node: Node)
    requires RoundTrips(codec)
    ensures GetResult(codec, data[key := codec.marshal(node)], missingIsError, key) == Ok(Some(node))
  {
    assert codec.unmarshal(codec.marshal(node)) == Some(node);
  }

  /**
   * GetAll of keys whose stored values are all records succeeds with one entry
   * per key: no record for a missing key, the stored record otherwise.
   */
  lemma GetAllPositions(codec: Codec, data: map<string, seq<Byte>>, keys: seq<string>)
    requires forall k :: k in data ==> codec.unmarshal(data[k]).Some?
    ensures var r := DecodeAll(codec, Values(data, keys));
      r.Ok? && |r.value| == |keys| &&
      forall i :: 0 <= i < |keys| ==>
        r.value[i] == if keys[i] in data then codec.unmarshal(data[keys[i]]) else None
  {
    var vs := Values(data, keys);
    DecodeAllRecords(codec, vs);
    DecodeAllPositions(codec, vs);
  }
}

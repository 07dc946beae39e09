/**
 * The pointer database service: Put, Get and Delete guard the key/value store
 * with an API key and report store failures as internal errors; List answers a
 * prefix query over the store's sorted keys, relative to the prefix, bounded by
 * exclusive start and end keys, collapsed to one item per sub-directory unless
 * recursive, and cut to a limit with a flag saying whether more remain.
 */
module PointerDb {
  import opened Wrappers
  import opened Bytes
  import opened SortedKv

  const INVALID_API_CREDENTIAL := "Invalid API credential"

  /** What the store reports when an operation on it fails. */
  datatype StoreError = KeyNotFound(key: string) | StoreFailed(message: string)

  /** The gRPC status of a failed call. */
  datatype StatusError =
    | Unauthenticated(message: string)
    | Internal(cause: StoreError)

  /** The metadata flags of a listing; no flags means no pointers in the items. */
  const META_NONE := 0

  datatype Item = Item(path: string, pointer: Option<Value>, isPrefix: bool)

  datatype ListRequest = ListRequest(
    prefix: string, startAfter: string, endBefore: string,
    recursive: bool, limit: int, metaFlags: int, apiKey: seq<Byte>)

  datatype ListResponse = ListResponse(items: seq<Item>, more: bool)

  /**
   * The service over its store.  An injected store failure stands for the
   * store's own error on that call; a missing key is the store's KeyNotFound.
   */
  class Server {
    var db: seq<Entry>
    const apiKey: seq<Byte>

    predicate Valid()
      reads this
    {
      Sorted(db)
    }

    constructor (apiKey: seq<Byte>)
      ensures Valid() && db == [] && this.apiKey == apiKey
    {
      db := [];
      this.apiKey := apiKey;
    }

    /** Put: store the pointer's bytes under the path. */
    method Put(path: string, pointer: Value, key: seq<Byte>, fail: Option<string>) returns (err: Option<StatusError>)
      requires Valid()
      modifies this
      ensures Valid()
      ensures key != apiKey ==> err == Some(Unauthenticated(INVALID_API_CREDENTIAL)) && db == old(db)
      ensures key == apiKey && fail.Some? ==> err == Some(Internal(StoreFailed(fail.value))) && db == old(db)
      ensures key == apiKey && fail.None? ==> err == None && db == Insert(old(db), path, pointer)
    {
      if key != apiKey {
        return Some(Unauthenticated(INVALID_API_CREDENTIAL));
      }
      if fail.Some? {
        return Some(Internal(StoreFailed(fail.value)));
      }
      db := Insert(db, path, pointer);
      err := None;
    }

    /** Get: the bytes stored under the path, unchanged. */
    method Get(path: string, key: seq<Byte>, fail: Option<string>) returns (r: Result<Value, StatusError>)
      requires Valid()
      ensures key != apiKey ==> r == Err(Unauthenticated(INVALID_API_CREDENTIAL))
      ensures key == apiKey && fail.Some? ==> r == Err(Internal(StoreFailed(fail.value)))
      ensures key == apiKey && fail.None? ==>
        (r.Ok? <==> Lookup(db, path).Some?) &&
        (r.Ok? ==> Some(r.value) == Lookup(db, path)) &&
        (r.Err? ==> r.error == Internal(KeyNotFound(path)))
    {
      if key != apiKey {
        return Err(Unauthenticated(INVALID_API_CREDENTIAL));
      }
      if fail.Some? {
        return Err(Internal(StoreFailed(fail.value)));
      }
      var v := Lookup(db, path);
      if v.None? {
        return Err(Internal(KeyNotFound(path)));
      }
      r := Ok(v.value);
    }

    /** Delete: remove the path's entry. */
    method Delete(path: string, key: seq<Byte>, fail: Option<string>) returns (err: Option<StatusError>)
      requires Valid()
      modifies this
      ensures Valid()
      ensures key != apiKey ==> err == Some(Unauthenticated(INVALID_API_CREDENTIAL)) && db == old(db)
      ensures key == apiKey && fail.Some? ==> err == Some(Internal(StoreFailed(fail.value))) && db == old(db)
      ensures key == apiKey && fail.None? && Lookup(old(db), path).None? ==>
        err == Some(Internal(KeyNotFound(path))) && db == old(db)
      ensures key == apiKey && fail.None? && Lookup(old(db), path).Some? ==>
        err == None && db == Remove(old(db), path)
    {
      if key != apiKey {
        return Some(Unauthenticated(INVALID_API_CREDENTIAL));
      }
      if fail.Some? {
        return Some(Internal(StoreFailed(fail.value)));
      }
      if Lookup(db, path).None? {
        return Some(Internal(KeyNotFound(path)));
      }
      db := Remove(db, path);
      err := None;
    }
  }

  /** A listing prefix names whole path segments: a missing trailing "/" is added. */
  function WholeSegments(prefix: string): (p: string)
    ensures |prefix| == 0 ==> p == prefix
    ensures |prefix| > 0 ==> prefix <= p && |p| > 0 && p[|p| - 1] == '/' && |p| <= |prefix| + 1
  {
    if |prefix| == 0 || prefix[|prefix| - 1] == '/' then prefix else prefix + "/"
  }

  /** The entries whose keys start with p, keyed by the rest of their key. */
  function Under(db: seq<Entry>, p: string): seq<Entry>
    decreases |db|
  {
    if |db| == 0 then []
    else if p <= db[0].key then [Entry(db[0].key[|p|..], db[0].value)] + Under(db[1..], p)
    else Under(db[1..], p)
  }

  /** The value under relative key q is the value stored under p + q. */
  lemma {:induction false} UnderLookup(db: seq<Entry>, p: string, q: string)
    ensures Lookup(Under(db, p), q) == Lookup(db, p + q)
    decreases |db|
  {
    if |db| > 0 {
      UnderLookup(db[1..], p, q);
      var key := db[0].key;
      if p <= key {
        var rel := key[|p|..];
        assert key == p + rel;
        if key == p + q {
          assert rel == (p + q)[|p|..] == q;
        }
      } else {
        assert p <= p + q;
      }
    }
  }

  /** A key below every stored key under p stays below every relative key. */
  lemma {:induction false} UnderAbove(db: seq<Entry>, p: string, x: string)
    requires AllAbove(p + x, db)
    ensures AllAbove(x, Under(db, p))
    decreases |db|
  {
    if |db| > 0 {
      assert AllAbove(p + x, db[1..]);
      UnderAbove(db[1..], p, x);
      var key := db[0].key;
      if p <= key {
        var rel := key[|p|..];
        assert key == p + rel;
        BelowCommonPrefix(p, x, rel);
      }
    }
  }

  /** The relative keys of a sorted store are sorted. */
  lemma {:induction false} UnderSorted(db: seq<Entry>, p: string)
    requires Sorted(db)
    ensures Sorted(Under(db, p))
    decreases |db|
  {
    if |db| > 0 {
      UnderSorted(db[1..], p);
      var key := db[0].key;
      if p <= key {
        var rel := key[|p|..];
        assert key == p + rel;
        assert AllAbove(p + rel, db[1..]);
        UnderAbove(db[1..], p, rel);
      }
    }
  }

  /** An empty prefix keeps the whole store, keys unchanged. */
  lemma {:induction false} UnderNoPrefix(db: seq<Entry>)
    ensures Under(db, "") == db
    decreases |db|
  {
    if |db| > 0 {
      UnderNoPrefix(db[1..]);
      assert db[0].key[0..] == db[0].key;
    }
  }

  /** The relative key lies strictly after startAfter and strictly before endBefore (an empty bound is none). */
  predicate InBounds(q: string, startAfter: string, endBefore: string) {
    (|startAfter| == 0 || Below(startAfter, q)) && (|endBefore| == 0 || Below(q, endBefore))
  }

  /** The entries within the exclusive bounds. */
  function Between(es: seq<Entry>, startAfter: string, endBefore: string): seq<Entry>
    decreases |es|
  {
    if |es| == 0 then []
    else if InBounds(es[0].key, startAfter, endBefore) then [es[0]] + Between(es[1..], startAfter, endBefore)
    else Between(es[1..], startAfter, endBefore)
  }

  /** A key is found within the bounds exactly when it lies within them and is stored. */
  lemma {:induction false} BetweenLookup(es: seq<Entry>, startAfter: string, endBefore: string, q: string)
    ensures Lookup(Between(es, startAfter, endBefore), q) ==
      if InBounds(q, startAfter, endBefore) then Lookup(es, q) else None
    decreases |es|
  {
    if |es| > 0 {
      BetweenLookup(es[1..], startAfter, endBefore, q);
    }
  }

  /** Dropping entries keeps a lower key below the rest. */
  lemma {:induction false} BetweenAbove(es: seq<Entry>, startAfter: string, endBefore: string, x: string)
    requires AllAbove(x, es)
    ensures AllAbove(x, Between(es, startAfter, endBefore))
    decreases |es|
  {
    if |es| > 0 {
      assert AllAbove(x, es[1..]);
      BetweenAbove(es[1..], startAfter, endBefore, x);
    }
  }

  /** The entries within bounds of a sorted store are sorted. */
  lemma {:induction false} BetweenSorted(es: seq<Entry>, startAfter: string, endBefore: string)
    requires Sorted(es)
    ensures Sorted(Between(es, startAfter, endBefore))
    decreases |es|
  {
    if |es| > 0 {
      BetweenSorted(es[1..], startAfter, endBefore);
      assert AllAbove(es[0].key, es[1..]);
      BetweenAbove(es[1..], startAfter, endBefore, es[0].key);
    }
  }

  /** Without bounds every entry is kept. */
  lemma {:induction false} BetweenUnbounded(es: seq<Entry>)
    ensures Between(es, "", "") == es
    decreases |es|
  {
    if |es| > 0 {
      BetweenUnbounded(es[1..]);
    }
  }

  /** The first segment of a relative key, with its "/", or the whole key if it has none. */
  function Segment(k: string): string
    decreases |k|
  {
    if |k| == 0 then k
    else if k[0] == '/' then ['/']
    else [k[0]] + Segment(k[1..])
  }

  /** The segment of a key below a directory with no "/" in its name is that directory. */
  lemma {:induction false} SegmentOfDir(dir: string, rest: string)
    requires '/' !in dir
    ensures Segment(dir + "/" + rest) == dir + "/"
    decreases |dir|
  {
    if |dir| == 0 {
      assert (dir + "/" + rest)[0] == '/';
    } else {
      assert (dir + "/" + rest)[1..] == dir[1..] + "/" + rest;
      SegmentOfDir(dir[1..], rest);
      assert dir + "/" == [dir[0]] + (dir[1..] + "/");
    }
  }

  /**
   * The segment starts the key; when the key has a "/" the segment ends in its
   * first one, and otherwise it is the whole key.
   */
  lemma {:induction false} SegmentShape(k: string)
    ensures Segment(k) <= k
    ensures '/' in k ==> |Segment(k)| > 0 && Segment(k)[|Segment(k)| - 1] == '/' && '/' !in Segment(k)[..|Segment(k)| - 1]
    ensures '/' !in k ==> Segment(k) == k
    decreases |k|
  {
    if |k| > 0 && k[0] != '/' {
      SegmentShape(k[1..]);
      var t := Segment(k);
      assert t == [k[0]] + Segment(k[1..]);
      if '/' in k {
        var i :| 0 <= i < |k| && k[i] == '/';
        assert k[1..][i - 1] == '/';
        assert t[..|t| - 1] == [k[0]] + Segment(k[1..])[..|Segment(k[1..])| - 1];
      } else {
        assert k == [k[0]] + k[1..];
      }
    }
  }

  /** Segment is monotone: later keys never have earlier segments. */
  lemma {:induction false} SegmentMonotone(a: string, b: string)
    requires Below(a, b)
    ensures Segment(a) == Segment(b) || Below(Segment(a), Segment(b))
    decreases |a|
  {
    if |a| > 0 && a[0] == b[0] && a[0] != '/' {
      SegmentMonotone(a[1..], b[1..]);
    }
  }

  /** The item a relative entry lists as: a sub-directory item when not recursive and the key goes deeper. */
  function ItemOf(e: Entry, recursive: bool, flags: int): Item {
    if !recursive && '/' in e.key then Item(Segment(e.key), None, true)
    else Item(e.key, if flags != META_NONE then Some(e.value) else None, false)
  }

  /** Two entries in order list in order, or as the same sub-directory item. */
  lemma ItemOrder(a: Entry, b: Entry, recursive: bool, flags: int)
    requires Below(a.key, b.key)
    ensures (ItemOf(a, recursive, flags) == ItemOf(b, recursive, flags) && ItemOf(a, recursive, flags).isPrefix) ||
            Below(ItemOf(a, recursive, flags).path, ItemOf(b, recursive, flags).path)
  {
    if !recursive {
      SegmentMonotone(a.key, b.key);
      SegmentShape(a.key);
      SegmentShape(b.key);
      if Segment(a.key) == Segment(b.key) {
        if '/' !in a.key {
          if '/' !in b.key {
            BelowIrreflexive(a.key);
          }
        }
      }
    }
  }

  /** Item paths strictly ascending. */
  predicate Ascending(items: seq<Item>) {
    forall i, j :: 0 <= i < j < |items| ==> Below(items[i].path, items[j].path)
  }

  /**
   * The items of the entries, in order; neighbouring entries under the same
   * sub-directory give one item.
   */
  function Collapse(es: seq<Entry>, recursive: bool, flags: int): (r: seq<Item>)
    ensures |r| == 0 <==> |es| == 0
    ensures |r| > 0 ==> r[0] == ItemOf(es[0], recursive, flags)
    decreases |es|
  {
    if |es| == 0 then []
    else
      var it := ItemOf(es[0], recursive, flags);
      var rest := Collapse(es[1..], recursive, flags);
      if |rest| > 0 && it.isPrefix && rest[0] == it then rest else [it] + rest
  }

  /** The items of sorted entries ascend: merging neighbours never breaks the order. */
  lemma {:induction false} CollapseAscending(es: seq<Entry>, recursive: bool, flags: int)
    requires Sorted(es)
    ensures Ascending(Collapse(es, recursive, flags))
    decreases |es|
  {
    if |es| > 0 {
      assert Sorted(es[1..]);
      CollapseAscending(es[1..], recursive, flags);
      var it := ItemOf(es[0], recursive, flags);
      var rest := Collapse(es[1..], recursive, flags);
      if !(|rest| > 0 && it.isPrefix && rest[0] == it) && |rest| > 0 {
        ItemOrder(es[0], es[1], recursive, flags);
        forall j | 0 <= j < |rest| ensures Below(it.path, rest[j].path) {
          if j > 0 {
            BelowTransitive(it.path, rest[0].path, rest[j].path);
          }
        }
      }
    }
  }

  /** Every entry is listed: its own item, or the item of its sub-directory. */
  lemma {:induction false} CollapseComplete(es: seq<Entry>, recursive: bool, flags: int)
    ensures forall i :: 0 <= i < |es| ==> ItemOf(es[i], recursive, flags) in Collapse(es, recursive, flags)
    decreases |es|
  {
    if |es| > 0 {
      CollapseComplete(es[1..], recursive, flags);
      forall i | 0 < i < |es| ensures ItemOf(es[i], recursive, flags) in Collapse(es[1..], recursive, flags) {
        assert es[i] == es[1..][i - 1];
      }
    }
  }

  /** Nothing else is listed: every item is some entry's item. */
  lemma {:induction false} CollapseSound(es: seq<Entry>, recursive: bool, flags: int)
    ensures forall it :: it in Collapse(es, recursive, flags) ==>
      exists i :: 0 <= i < |es| && ItemOf(es[i], recursive, flags) == it
    decreases |es|
  {
    if |es| > 0 {
      CollapseSound(es[1..], recursive, flags);
      forall it | it in Collapse(es[1..], recursive, flags)
        ensures exists i :: 0 <= i < |es| && ItemOf(es[i], recursive, flags) == it
      {
        var i :| 0 <= i < |es[1..]| && ItemOf(es[1..][i], recursive, flags) == it;
        assert ItemOf(es[i + 1], recursive, flags) == it;
      }
    }
  }

  /** A recursive listing has one item per entry, each under the entry's own key. */
  lemma {:induction false} CollapseRecursive(es: seq<Entry>, flags: int)
    ensures |Collapse(es, true, flags)| == |es|
    ensures forall i :: 0 <= i < |es| ==> Collapse(es, true, flags)[i] == ItemOf(es[i], true, flags)
    decreases |es|
  {
    if |es| > 0 {
      CollapseRecursive(es[1..], flags);
    }
  }

  /** The whole listing a request asks for, before the limit. */
  function Listing(db: seq<Entry>, req: ListRequest): seq<Item>
  {
    Collapse(Between(Under(db, WholeSegments(req.prefix)), req.startAfter, req.endBefore),
             req.recursive, req.metaFlags)
  }

  /**
   * List: a wrong API key is refused; otherwise the listing, cut to the first
   * limit items when a positive limit leaves some out.
   */
  function List(db: seq<Entry>, req: ListRequest, apiKey: seq<Byte>): (r: Result<ListResponse, StatusError>)
    ensures r.Err? <==> req.apiKey != apiKey
    ensures r.Err? ==> r.error == Unauthenticated(INVALID_API_CREDENTIAL)
    // the items are the first of the listing, in ascending order, at most limit of them when it is positive
    ensures r.Ok? ==> r.value.items <= Listing(db, req)
    ensures r.Ok? && req.limit > 0 ==> |r.value.items| == if |Listing(db, req)| < req.limit then |Listing(db, req)| else req.limit
    ensures r.Ok? && req.limit <= 0 ==> r.value.items == Listing(db, req)
    // more is set exactly when items were left out
    ensures r.Ok? ==> (r.value.more <==> |r.value.items| < |Listing(db, req)|)
  {
    if req.apiKey != apiKey then Err(Unauthenticated(INVALID_API_CREDENTIAL))
    else
      var items := Listing(db, req);
      if req.limit > 0 && |items| > req.limit then Ok(ListResponse(items[..req.limit], true))
      else Ok(ListResponse(items, false))
  }

  /** A sorted store lists in ascending order, however the listing is cut. */
  lemma ListAscending(db: seq<Entry>, req: ListRequest, apiKey: seq<Byte>)
    requires Sorted(db) && List(db, req, apiKey).Ok?
    ensures Ascending(List(db, req, apiKey).value.items)
  {
    var p := WholeSegments(req.prefix);
    UnderSorted(db, p);
    BetweenSorted(Under(db, p), req.startAfter, req.endBefore);
    CollapseAscending(Between(Under(db, p), req.startAfter, req.endBefore), req.recursive, req.metaFlags);
  }

  /**
   * The entries a listing is built from are sorted, and hold exactly the stored
   * values under the prefix within the bounds.
   */
  lemma Window(db: seq<Entry>, p: string, startAfter: string, endBefore: string)
    requires Sorted(db)
    ensures var es := Between(Under(db, p), startAfter, endBefore);
      Sorted(es) &&
      forall q :: Lookup(es, q) == if InBounds(q, startAfter, endBefore) then Lookup(db, p + q) else None
  {
    UnderSorted(db, p);
    BetweenSorted(Under(db, p), startAfter, endBefore);
    forall q ensures Lookup(Between(Under(db, p), startAfter, endBefore), q) ==
      if InBounds(q, startAfter, endBefore) then Lookup(db, p + q) else None
    {
      BetweenLookup(Under(db, p), startAfter, endBefore, q);
      UnderLookup(db, p, q);
    }
  }

  /**
   * A recursive listing names exactly the stored paths under the prefix within
   * the bounds, relative to the prefix, and carries each one's pointer when
   * metadata is asked for.
   */
  lemma ListingRecursive(db: seq<Entry>, req: ListRequest)
    requires Sorted(db) && req.recursive
    ensures var items := Listing(db, req); var p := WholeSegments(req.prefix);
      (forall q :: (exists i :: 0 <= i < |items| && items[i].path == q) <==>
                   InBounds(q, req.startAfter, req.endBefore) && Lookup(db, p + q).Some?) &&
      forall i :: 0 <= i < |items| ==>
        !items[i].isPrefix &&
        items[i].pointer == if req.metaFlags != META_NONE then Lookup(db, p + items[i].path) else None
  {
    var p := WholeSegments(req.prefix);
    var es := Between(Under(db, p), req.startAfter, req.endBefore);
    Window(db, p, req.startAfter, req.endBefore);
    var items := Listing(db, req);
    CollapseRecursive(es, req.metaFlags);
    forall i | 0 <= i < |es| ensures Lookup(es, es[i].key) == Some(es[i].value) {
      LookupAt(es, i);
    }
    forall q | InBounds(q, req.startAfter, req.endBefore) && Lookup(db, p + q).Some?
      ensures exists i :: 0 <= i < |items| && items[i].path == q
    {
      var i := LookupIndex(es, q);
      assert items[i].path == q;
    }
  }

  /**
   * In a listing that is not recursive, an item that is no sub-directory is a
   * stored path under the prefix, within the bounds, with no "/" in it, and
   * carries its pointer when metadata is asked for.
   */
  lemma ListingDirectEntries(db: seq<Entry>, req: ListRequest)
    requires Sorted(db) && !req.recursive
    ensures var p := WholeSegments(req.prefix);
      forall it :: it in Listing(db, req) && !it.isPrefix ==>
        '/' !in it.path && InBounds(it.path, req.startAfter, req.endBefore) && Lookup(db, p + it.path).Some? &&
        it.pointer == if req.metaFlags != META_NONE then Lookup(db, p + it.path) else None
  {
    var p := WholeSegments(req.prefix);
    var es := Between(Under(db, p), req.startAfter, req.endBefore);
    Window(db, p, req.startAfter, req.endBefore);
    CollapseSound(es, false, req.metaFlags);
    forall it | it in Listing(db, req) && !it.isPrefix
      ensures '/' !in it.path && InBounds(it.path, req.startAfter, req.endBefore) && Lookup(db, p + it.path).Some? &&
        it.pointer == if req.metaFlags != META_NONE then Lookup(db, p + it.path) else None
    {
      var i :| 0 <= i < |es| && ItemOf(es[i], false, req.metaFlags) == it;
      LookupAt(es, i);
    }
  }

  /**
   * In a listing that is not recursive, a sub-directory item has no pointer,
   * ends in its only "/", and stands for at least one stored path below it
   * within the bounds.
   */
  lemma ListingSubdirectories(db: seq<Entry>, req: ListRequest)
    requires Sorted(db) && !req.recursive
    ensures var p := WholeSegments(req.prefix);
      forall it :: it in Listing(db, req) && it.isPrefix ==>
        it.pointer == None && |it.path| > 0 && it.path[|it.path| - 1] == '/' && '/' !in it.path[..|it.path| - 1] &&
        exists q :: Segment(q) == it.path && '/' in q &&
                    InBounds(q, req.startAfter, req.endBefore) && Lookup(db, p + q).Some?
  {
    var p := WholeSegments(req.prefix);
    var es := Between(Under(db, p), req.startAfter, req.endBefore);
    Window(db, p, req.startAfter, req.endBefore);
    CollapseSound(es, false, req.metaFlags);
    forall it | it in Listing(db, req) && it.isPrefix
      ensures it.pointer == None && |it.path| > 0 && it.path[|it.path| - 1] == '/' && '/' !in it.path[..|it.path| - 1]
      ensures exists q :: Segment(q) == it.path && '/' in q &&
                          InBounds(q, req.startAfter, req.endBefore) && Lookup(db, p + q).Some?
    {
      var i :| 0 <= i < |es| && ItemOf(es[i], false, req.metaFlags) == it;
      LookupAt(es, i);
      SubdirectoryItem(es[i], req.metaFlags);
      var q := es[i].key;
      assert Lookup(es, q).Some?;
    }
  }

  /** An entry that lists as a sub-directory has a slash, and the item is its first segment. */
  lemma SubdirectoryItem(e: Entry, flags: int)
    ensures var it := ItemOf(e, false, flags);
      it.isPrefix ==>
        it.pointer == None && '/' in e.key && Segment(e.key) == it.path &&
        |it.path| > 0 && it.path[|it.path| - 1] == '/' && '/' !in it.path[..|it.path| - 1]
  {
    SegmentShape(e.key);
  }

  /**
   * A listing that is not recursive lists every stored path under the prefix
   * within the bounds: as its own item when it has no "/", otherwise as the item
   * of its first segment.
   */
  lemma ListingComplete(db: seq<Entry>, req: ListRequest)
    requires Sorted(db) && !req.recursive
    ensures var p := WholeSegments(req.prefix);
      forall q :: InBounds(q, req.startAfter, req.endBefore) && Lookup(db, p + q).Some? ==>
        if '/' in q then Item(Segment(q), None, true) in Listing(db, req)
        else Item(q, if req.metaFlags != META_NONE then Lookup(db, p + q) else None, false) in Listing(db, req)
  {
    var p := WholeSegments(req.prefix);
    var es := Between(Under(db, p), req.startAfter, req.endBefore);
    Window(db, p, req.startAfter, req.endBefore);
    CollapseComplete(es, false, req.metaFlags);
    forall q | InBounds(q, req.startAfter, req.endBefore) && Lookup(db, p + q).Some?
      ensures if '/' in q then Item(Segment(q), None, true) in Listing(db, req)
              else Item(q, if req.metaFlags != META_NONE then Lookup(db, p + q) else None, false) in Listing(db, req)
    {
      var i := LookupIndex(es, q);
      assert ItemOf(es[i], false, req.metaFlags) in Listing(db, req);
    }
  }
}

/**
 * The routing table's node store: node records kept in ascending id order, as in
 * the ordered key/value namespace `nodes` the table lists and filters by range.
 */
module KadStore {
  import opened Wrappers
  import opened KadIds

  /** The network address a node record may carry. */
  datatype NodeAddress = NodeAddress(address: string)

  /** A node record: its id and, once known, its address. */
  datatype Node = Node(id: Id, address: Option<NodeAddress>)

  /** Records in strictly ascending id order, so each id has at most one record. */
  predicate Sorted(ns: seq<Node>) {
    forall i, j :: 0 <= i < j < |ns| ==> ns[i].id < ns[j].id
  }

  /** The ids of the records, in store order. */
  function Ids(ns: seq<Node>): (r: seq<Id>)
    ensures |r| == |ns| && forall i :: 0 <= i < |ns| ==> r[i] == ns[i].id
  {
    if |ns| == 0 then [] else [ns[0].id] + Ids(ns[1..])
  }

  /** Get: the record stored under id, if there is one. */
  function Find(ns: seq<Node>, id: Id): (r: Option<Node>)
    ensures r.Some? ==> r.value in ns && r.value.id == id
    ensures r.None? <==> forall n :: n in ns ==> n.id != id
  {
    if |ns| == 0 then None
    else if ns[0].id == id then Some(ns[0])
    else Find(ns[1..], id)
  }

  /** An id is among the ids of the records exactly when Get finds a record under it. */
  lemma IdsFind(ns: seq<Node>, id: Id)
    ensures id in Ids(ns) <==> Find(ns, id).Some?
  {
    if Find(ns, id).Some? {
      var a :| 0 <= a < |ns| && ns[a] == Find(ns, id).value;
      assert Ids(ns)[a] == id;
    }
  }

  /** Put: store n under its id, replacing a record with the same id. */
  function Put(ns: seq<Node>, n: Node): seq<Node> {
    if |ns| == 0 then [n]
    else if n.id < ns[0].id then [n] + ns
    else if n.id == ns[0].id then [n] + ns[1..]
    else [ns[0]] + Put(ns[1..], n)
  }

  /** Delete: drop the record stored under id. */
  function Delete(ns: seq<Node>, id: Id): seq<Node> {
    if |ns| == 0 then []
    else if ns[0].id == id then ns[1..]
    else [ns[0]] + Delete(ns[1..], id)
  }

  /** The records whose ids lie in the half-open range (lo, hi], in store order. */
  function InRange(ns: seq<Node>, lo: int, hi: int): (r: seq<Node>)
    ensures |r| <= |ns|
  {
    if |ns| == 0 then []
    else if lo < ns[0].id <= hi then [ns[0]] + InRange(ns[1..], lo, hi)
    else InRange(ns[1..], lo, hi)
  }

  /** The records in range are exactly the stored records whose ids lie in (lo, hi]. */
  lemma {:induction false} InRangeContents(ns: seq<Node>, lo: int, hi: int)
    ensures forall n :: n in InRange(ns, lo, hi) <==> n in ns && lo < n.id <= hi
    decreases |ns|
  {
    if |ns| > 0 {
      InRangeContents(ns[1..], lo, hi);
    }
  }

  /** After a Put the store holds n and every other record it held before. */
  lemma {:induction false} PutContents(ns: seq<Node>, n: Node)
    requires Sorted(ns)
    ensures Sorted(Put(ns, n))
    ensures forall x :: x in Put(ns, n) <==> x == n || (x in ns && x.id != n.id)
    decreases |ns|
  {
    if |ns| > 0 && n.id > ns[0].id {
      var rest := Put(ns[1..], n);
      assert Sorted(ns[1..]);
      PutContents(ns[1..], n);
      assert forall x :: x in rest ==> x.id > ns[0].id;
      SortedCons(ns[0], rest);
    } else if |ns| > 0 && n.id == ns[0].id {
      assert Sorted(ns[1..]);
      assert forall x :: x in ns[1..] ==> x.id > ns[0].id;
      SortedCons(n, ns[1..]);
      forall x | x in ns
        ensures x.id == n.id ==> x == ns[0]
      {
      }
    }
  }

  /** Prepending a record below every stored id keeps the store sorted. */
  lemma SortedCons(x: Node, ns: seq<Node>)
    requires Sorted(ns) && forall y :: y in ns ==> y.id > x.id
    ensures Sorted([x] + ns)
  {
    var r := [x] + ns;
    forall i, j | 0 <= i < j < |r|
      ensures r[i].id < r[j].id
    {
      assert r[j] == ns[j - 1];
      if i > 0 {
        assert r[i] == ns[i - 1];
      }
    }
  }

  /** Get after Put: the new record under its id, the old lookup under every other id. */
  lemma {:induction false} FindPut(ns: seq<Node>, n: Node, id: Id)
    ensures Find(Put(ns, n), id) == if id == n.id then Some(n) else Find(ns, id)
    decreases |ns|
  {
    if |ns| > 0 && n.id > ns[0].id {
      FindPut(ns[1..], n, id);
    }
  }

  /** After a Delete the store holds every other record and nothing under id. */
  lemma {:induction false} DeleteContents(ns: seq<Node>, id: Id)
    requires Sorted(ns)
    ensures Sorted(Delete(ns, id))
    ensures forall x :: x in Delete(ns, id) <==> x in ns && x.id != id
    decreases |ns|
  {
    if |ns| > 0 {
      assert Sorted(ns[1..]);
      if ns[0].id == id {
        assert forall x :: x in ns[1..] ==> x.id > id;
      } else {
        DeleteContents(ns[1..], id);
        assert forall x :: x in Delete(ns[1..], id) ==> x.id > ns[0].id;
        SortedCons(ns[0], Delete(ns[1..], id));
      }
    }
  }

  /** Get after Delete: nothing under the deleted id, the old lookup under every other id. */
  lemma FindDelete(ns: seq<Node>, id: Id, x: Id)
    requires Sorted(ns)
    ensures Find(Delete(ns, id), x) == if x == id then None else Find(ns, x)
  {
    DeleteContents(ns, id);
    FindSorted(ns, x);
    FindSorted(Delete(ns, id), x);
  }

  /** In a sorted store, Get returns the one record whose id matches. */
  lemma FindSorted(ns: seq<Node>, id: Id)
    requires Sorted(ns)
    ensures forall n :: n in ns && n.id == id ==> Find(ns, id) == Some(n)
  {
  }

  /** The records in range stay in ascending order. */
  lemma {:induction false} InRangeSorted(ns: seq<Node>, lo: int, hi: int)
    requires Sorted(ns)
    ensures Sorted(InRange(ns, lo, hi))
    decreases |ns|
  {
    if |ns| > 0 {
      assert Sorted(ns[1..]);
      InRangeSorted(ns[1..], lo, hi);
      InRangeContents(ns[1..], lo, hi);
      if lo < ns[0].id <= hi {
        SortedCons(ns[0], InRange(ns[1..], lo, hi));
      }
    }
  }

  /** A Put outside the range leaves the records in range as they were. */
  lemma {:induction false} InRangePutOutside(ns: seq<Node>, n: Node, lo: int, hi: int)
    requires !(lo < n.id <= hi)
    ensures InRange(Put(ns, n), lo, hi) == InRange(ns, lo, hi)
    decreases |ns|
  {
    if |ns| > 0 && n.id > ns[0].id {
      InRangePutOutside(ns[1..], n, lo, hi);
      assert Put(ns, n)[1..] == Put(ns[1..], n);
    } else if |ns| > 0 && n.id == ns[0].id {
      assert Put(ns, n)[1..] == ns[1..];
    } else if |ns| > 0 {
      assert Put(ns, n)[1..] == ns;
    }
  }

  /** A Put inside the range adds at most one record to it. */
  lemma {:induction false} InRangePutInside(ns: seq<Node>, n: Node, lo: int, hi: int)
    ensures |InRange(Put(ns, n), lo, hi)| <= |InRange(ns, lo, hi)| + 1
    decreases |ns|
  {
    if |ns| > 0 && n.id > ns[0].id {
      InRangePutInside(ns[1..], n, lo, hi);
      assert Put(ns, n)[1..] == Put(ns[1..], n);
    } else if |ns| > 0 && n.id == ns[0].id {
      assert Put(ns, n)[1..] == ns[1..];
    } else if |ns| > 0 {
      assert Put(ns, n)[1..] == ns;
    }
  }

  /** A Put that replaces a stored record leaves the number of records in every range as it was. */
  lemma {:induction false} InRangePutPresent(ns: seq<Node>, n: Node, lo: int, hi: int)
    requires Sorted(ns) && Find(ns, n.id).Some?
    ensures |InRange(Put(ns, n), lo, hi)| == |InRange(ns, lo, hi)|
    decreases |ns|
  {
    if n.id > ns[0].id {
      assert Sorted(ns[1..]);
      InRangePutPresent(ns[1..], n, lo, hi);
      assert Put(ns, n)[1..] == Put(ns[1..], n);
    } else if n.id == ns[0].id {
      assert Put(ns, n)[1..] == ns[1..];
    }
  }

  /** A Delete never adds a record to a range. */
  lemma {:induction false} InRangeDelete(ns: seq<Node>, id: Id, lo: int, hi: int)
    ensures |InRange(Delete(ns, id), lo, hi)| <= |InRange(ns, lo, hi)|
    decreases |ns|
  {
    if |ns| > 0 && ns[0].id != id {
      InRangeDelete(ns[1..], id, lo, hi);
      assert Delete(ns, id)[1..] == Delete(ns[1..], id);
    } else if |ns| > 0 {
      InRangeShrink(ns[1..], lo, hi, lo, hi);
    }
  }

  /** Deleting a stored record inside the range removes one record from it. */
  lemma {:induction false} InRangeCountDown(ns: seq<Node>, id: Id, lo: int, hi: int)
    requires Sorted(ns) && Find(ns, id).Some? && lo < id <= hi
    ensures |InRange(Delete(ns, id), lo, hi)| == |InRange(ns, lo, hi)| - 1
    decreases |ns|
  {
    if ns[0].id != id {
      assert Sorted(ns[1..]);
      InRangeCountDown(ns[1..], id, lo, hi);
      var d := Delete(ns, id);
      assert d == [ns[0]] + Delete(ns[1..], id);
      assert d[0] == ns[0] && d[1..] == Delete(ns[1..], id);
      if lo < ns[0].id <= hi {
        assert InRange(d, lo, hi) == [ns[0]] + InRange(Delete(ns[1..], id), lo, hi);
      } else {
        assert InRange(d, lo, hi) == InRange(Delete(ns[1..], id), lo, hi);
      }
    } else {
      assert Delete(ns, id) == ns[1..];
      assert InRange(ns, lo, hi) == [ns[0]] + InRange(ns[1..], lo, hi);
    }
  }

  /** A Delete outside the range leaves the records in range as they were. */
  lemma {:induction false} InRangeDeleteOutside(ns: seq<Node>, id: Id, lo: int, hi: int)
    requires !(lo < id <= hi)
    ensures InRange(Delete(ns, id), lo, hi) == InRange(ns, lo, hi)
    decreases |ns|
  {
    if |ns| > 0 && ns[0].id != id {
      InRangeDeleteOutside(ns[1..], id, lo, hi);
      assert Delete(ns, id)[1..] == Delete(ns[1..], id);
    }
  }

  /** The records in range of a concatenation are those of each part, in order. */
  lemma {:induction false} InRangeAppend(a: seq<Node>, b: seq<Node>, lo: int, hi: int)
    ensures InRange(a + b, lo, hi) == InRange(a, lo, hi) + InRange(b, lo, hi)
    decreases |a|
  {
    if |a| == 0 {
      assert a + b == b;
    } else {
      var ab := a + b;
      assert ab[0] == a[0] && ab[1..] == a[1..] + b;
      InRangeAppend(a[1..], b, lo, hi);
      var tail := InRange(a[1..], lo, hi) + InRange(b, lo, hi);
      assert InRange(ab[1..], lo, hi) == tail;
      if lo < a[0].id <= hi {
        assert InRange(ab, lo, hi) == [a[0]] + tail;
        assert InRange(a, lo, hi) == [a[0]] + InRange(a[1..], lo, hi);
      } else {
        assert InRange(ab, lo, hi) == tail;
        assert InRange(a, lo, hi) == InRange(a[1..], lo, hi);
      }
    }
  }

  /** A store whose ids all lie in (lo, hi] is its own range. */
  lemma {:induction false} InRangeAll(ns: seq<Node>, lo: int, hi: int)
    requires forall i :: 0 <= i < |ns| ==> lo < ns[i].id <= hi
    ensures InRange(ns, lo, hi) == ns
    decreases |ns|
  {
    if |ns| > 0 {
      InRangeAll(ns[1..], lo, hi);
    }
  }

  /** A store whose ids all lie outside (lo, hi] has nothing in range. */
  lemma {:induction false} InRangeNone(ns: seq<Node>, lo: int, hi: int)
    requires forall i :: 0 <= i < |ns| ==> !(lo < ns[i].id <= hi)
    ensures InRange(ns, lo, hi) == []
    decreases |ns|
  {
    if |ns| > 0 {
      InRangeNone(ns[1..], lo, hi);
    }
  }

  /** When every record of a is in range and none of b is, the range of a + b is a. */
  lemma InRangeSplit(a: seq<Node>, b: seq<Node>, lo: int, hi: int)
    requires forall i :: 0 <= i < |a| ==> lo < a[i].id <= hi
    requires forall i :: 0 <= i < |b| ==> !(lo < b[i].id <= hi)
    ensures InRange(a + b, lo, hi) == a
  {
    InRangeAppend(a, b, lo, hi);
    InRangeAll(a, lo, hi);
    InRangeNone(b, lo, hi);
    assert a + [] == a;
  }

  /** When only the records of the middle part b are in range, the range of a + b + c is b. */
  lemma InRangeMiddle(a: seq<Node>, b: seq<Node>, c: seq<Node>, lo: int, hi: int)
    requires forall i :: 0 <= i < |a| ==> !(lo < a[i].id <= hi)
    requires forall i :: 0 <= i < |b| ==> lo < b[i].id <= hi
    requires forall i :: 0 <= i < |c| ==> !(lo < c[i].id <= hi)
    ensures InRange(a + b + c, lo, hi) == b
  {
    InRangeSplit(b, c, lo, hi);
    InRangeNone(a, lo, hi);
    InRangeAppend(a, b + c, lo, hi);
    assert a + b + c == a + (b + c);
  }

  /** A Put of an id above every id of a goes into b. */
  lemma {:induction false} PutAppend(a: seq<Node>, b: seq<Node>, n: Node)
    requires forall i :: 0 <= i < |a| ==> a[i].id < n.id
    ensures Put(a + b, n) == a + Put(b, n)
    decreases |a|
  {
    if |a| == 0 {
      assert a + b == b;
    } else {
      PutAppend(a[1..], b, n);
      assert (a + b)[0] == a[0] && (a + b)[1..] == a[1..] + b;
    }
  }

  /** A sub-range holds no more records than the range around it. */
  lemma {:induction false} InRangeShrink(ns: seq<Node>, lo: int, hi: int, lo': int, hi': int)
    requires lo <= lo' && hi' <= hi
    ensures |InRange(ns, lo', hi')| <= |InRange(ns, lo, hi)|
    decreases |ns|
  {
    if |ns| > 0 {
      InRangeShrink(ns[1..], lo, hi, lo', hi');
    }
  }
}

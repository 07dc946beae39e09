/**
 * An ordered key/value store as the pointer database consumes it: entries kept
 * in ascending key order, keys compared byte-wise.  Keys are text whose UTF-8
 * bytes compare in the order of their code points, so the order is stated on
 * characters.
 */
module SortedKv {
  import opened Wrappers
  import opened Bytes

  type Value = seq<Byte>

  datatype Entry = Entry(key: string, value: Value)

  /** Lexicographic order of keys: a proper prefix comes first. */
  predicate Below(a: string, b: string) {
    if |a| == 0 then |b| > 0
    else if |b| == 0 then false
    else if a[0] != b[0] then a[0] < b[0]
    else Below(a[1..], b[1..])
  }

  lemma {:induction false} BelowIrreflexive(a: string)
    ensures !Below(a, a)
    decreases |a|
  {
    if |a| > 0 {
      BelowIrreflexive(a[1..]);
    }
  }

  lemma {:induction false} BelowTransitive(a: string, b: string, c: string)
    requires Below(a, b) && Below(b, c)
    ensures Below(a, c)
    decreases |a|
  {
    if |a| > 0 && a[0] == b[0] && b[0] == c[0] {
      BelowTransitive(a[1..], b[1..], c[1..]);
    }
  }

  /** Two different keys are ordered one way or the other, and never both. */
  lemma {:induction false} BelowTotal(a: string, b: string)
    ensures a != b <==> Below(a, b) || Below(b, a)
    ensures !(Below(a, b) && Below(b, a))
    decreases |a|
  {
    if |a| > 0 && |b| > 0 && a[0] == b[0] {
      BelowTotal(a[1..], b[1..]);
      if a[1..] == b[1..] {
        assert a == [a[0]] + a[1..] && b == [b[0]] + b[1..];
      }
    } else if a == b {
      BelowIrreflexive(a);
    }
  }

  /** A common prefix does not change the order. */
  lemma {:induction false} BelowCommonPrefix(p: string, x: string, y: string)
    ensures Below(p + x, p + y) <==> Below(x, y)
    decreases |p|
  {
    if |p| > 0 {
      assert (p + x)[0] == (p + y)[0];
      assert (p + x)[1..] == p[1..] + x && (p + y)[1..] == p[1..] + y;
      BelowCommonPrefix(p[1..], x, y);
    } else {
      assert p + x == x && p + y == y;
    }
  }

  /** Keys strictly ascending. */
  predicate Sorted(db: seq<Entry>) {
    forall i, j :: 0 <= i < j < |db| ==> Below(db[i].key, db[j].key)
  }

  /** Every key of db comes after k. */
  predicate AllAbove(k: string, db: seq<Entry>) {
    forall i :: 0 <= i < |db| ==> Below(k, db[i].key)
  }

  /** The value stored under k. */
  function Lookup(db: seq<Entry>, k: string): Option<Value> {
    if |db| == 0 then None
    else if db[0].key == k then Some(db[0].value)
    else Lookup(db[1..], k)
  }

  /** A key below every key of a sorted store is not in it. */
  lemma {:induction false} LookupBelow(db: seq<Entry>, k: string)
    requires AllAbove(k, db)
    ensures Lookup(db, k) == None
    decreases |db|
  {
    if |db| > 0 {
      BelowIrreflexive(k);
      LookupBelow(db[1..], k);
    }
  }

  /** In a sorted store, the key of entry i finds entry i's value. */
  lemma {:induction false} LookupAt(db: seq<Entry>, i: int)
    requires Sorted(db) && 0 <= i < |db|
    ensures Lookup(db, db[i].key) == Some(db[i].value)
    decreases i
  {
    if i > 0 {
      BelowIrreflexive(db[i].key);
      assert Below(db[0].key, db[i].key);
      assert db[1..][i - 1] == db[i];
      LookupAt(db[1..], i - 1);
    }
  }

  /** A key that is found is the key of some entry, whose value is the one found. */
  lemma {:induction false} LookupIndex(db: seq<Entry>, k: string) returns (i: int)
    requires Lookup(db, k).Some?
    ensures 0 <= i < |db| && db[i].key == k && db[i].value == Lookup(db, k).value
    decreases |db|
  {
    if db[0].key == k {
      i := 0;
    } else {
      var j := LookupIndex(db[1..], k);
      i := j + 1;
    }
  }

  /** Put: the entry for k gets value v, in its place in the order. */
  function Insert(db: seq<Entry>, k: string, v: Value): (r: seq<Entry>)
    requires Sorted(db)
    ensures Sorted(r)
    ensures forall x :: AllAbove(x, db) && Below(x, k) ==> AllAbove(x, r)
    ensures forall q :: Lookup(r, q) == if q == k then Some(v) else Lookup(db, q)
    ensures |r| == |db| || |r| == |db| + 1
    decreases |db|
  {
    if |db| == 0 then [Entry(k, v)]
    else if db[0].key == k then
      assert forall q :: q != k ==> Lookup(db, q) == Lookup(db[1..], q);
      [Entry(k, v)] + db[1..]
    else if Below(k, db[0].key) then
      forall i | 1 <= i < |db| ensures Below(k, db[i].key) {
        BelowTransitive(k, db[0].key, db[i].key);
      }
      LookupBelow(db, k);
      [Entry(k, v)] + db
    else
      BelowTotal(k, db[0].key);
      var rest := Insert(db[1..], k, v);
      assert AllAbove(db[0].key, db[1..]);
      [db[0]] + rest
  }

  /** Delete: the entry for k is gone and nothing else changes. */
  function Remove(db: seq<Entry>, k: string): (r: seq<Entry>)
    requires Sorted(db)
    ensures Sorted(r)
    ensures forall x :: AllAbove(x, db) ==> AllAbove(x, r)
    ensures forall q :: Lookup(r, q) == if q == k then None else Lookup(db, q)
    ensures Lookup(db, k).Some? ==> |r| == |db| - 1
    ensures Lookup(db, k).None? ==> r == db
    decreases |db|
  {
    if |db| == 0 then db
    else if db[0].key == k then
      assert AllAbove(k, db[1..]);
      LookupBelow(db[1..], k);
      db[1..]
    else
      var rest := Remove(db[1..], k);
      assert AllAbove(db[0].key, db[1..]);
      forall x | AllAbove(x, db) ensures AllAbove(x, [db[0]] + rest) {
        assert AllAbove(x, db[1..]);
      }
      [db[0]] + rest
  }
}

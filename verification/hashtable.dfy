/**
 * MapServer's string hash table (hashTableObj) as a list of entries. The
 * table's own implementation, maphash.c, is not part of this model: keys
 * are compared exactly here, and an insert replaces the value of a key that
 * is already present.
 */
module HashTable {
  import opened Wrappers

  type Table = seq<(string, string)>

  /** msLookupHashTable */
  function Lookup(t: Table, k: string): (r: Option<string>)
    decreases |t|
  {
    if |t| == 0 then None
    else if t[0].0 == k then Some(t[0].1)
    else Lookup(t[1..], k)
  }

  /** msInsertHashTable: the entry of `k` takes the value `v`, or a new entry is added. */
  function Insert(t: Table, k: string, v: string): (r: Table)
    decreases |t|
  {
    if |t| == 0 then [(k, v)]
    else if t[0].0 == k then [(k, v)] + t[1..]
    else [t[0]] + Insert(t[1..], k, v)
  }

  /** msRemoveHashTable: the first entry of `k` is dropped. */
  function Remove(t: Table, k: string): (r: Table)
    decreases |t|
  {
    if |t| == 0 then []
    else if t[0].0 == k then t[1..]
    else [t[0]] + Remove(t[1..], k)
  }

  /** The number of entries whose key is `k`. */
  function Count(t: Table, k: string): nat
    decreases |t|
  {
    if |t| == 0 then 0 else (if t[0].0 == k then 1 else 0) + Count(t[1..], k)
  }

  /** `Lookup` finds a key exactly when some entry carries it. */
  lemma {:induction false} LookupFinds(t: Table, k: string)
    ensures Lookup(t, k).Some? <==> Count(t, k) > 0
    ensures Lookup(t, k).Some? ==> (k, Lookup(t, k).value) in t
    decreases |t|
  {
    if |t| > 0 && t[0].0 != k {
      LookupFinds(t[1..], k);
    }
  }

  lemma {:induction false} InsertFound(t: Table, k: string, v: string)
    ensures Lookup(Insert(t, k, v), k) == Some(v)
    decreases |t|
  {
    if |t| > 0 && t[0].0 != k {
      InsertFound(t[1..], k, v);
    }
  }

  lemma {:induction false} InsertOther(t: Table, k: string, v: string, other: string)
    requires other != k
    ensures Lookup(Insert(t, k, v), other) == Lookup(t, other)
    decreases |t|
  {
    if |t| > 0 && t[0].0 != k {
      InsertOther(t[1..], k, v, other);
    }
  }

  /** Inserting never gives a key a second entry. */
  lemma {:induction false} InsertCount(t: Table, k: string, v: string, other: string)
    ensures Count(Insert(t, k, v), other) ==
              if other == k && Count(t, k) == 0 then 1 else Count(t, other)
    decreases |t|
  {
    if |t| > 0 && t[0].0 != k {
      InsertCount(t[1..], k, v, other);
    }
  }

  lemma {:induction false} RemoveCount(t: Table, k: string, other: string)
    ensures Count(Remove(t, k), other) ==
              if other == k && Count(t, k) > 0 then Count(t, k) - 1 else Count(t, other)
    decreases |t|
  {
    if |t| > 0 && t[0].0 != k {
      RemoveCount(t[1..], k, other);
    }
  }

  lemma {:induction false} RemoveOther(t: Table, k: string, other: string)
    requires other != k
    ensures Lookup(Remove(t, k), other) == Lookup(t, other)
    decreases |t|
  {
    if |t| > 0 && t[0].0 != k {
      RemoveOther(t[1..], k, other);
    }
  }
}

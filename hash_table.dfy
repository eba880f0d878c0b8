/**
 * A fixed-size hash table with separate chaining. Each of the `size` buckets
 * is a list of key/value entries; a key lives in the bucket its hash selects,
 * at most once. Values may be Python's `None` (`Option.None` here), which
 * `Get` cannot tell apart from a missing key.
 */
module HashTables {
  import opened Wrappers

  /** The table's size when its creator gives none. */
  const DefaultSize: nat := 100

  /** One `[key, value]` pair of a bucket. */
  datatype Entry<K, V> = Entry(key: K, value: Option<V>)

  /** Position of the first entry of `b` holding `key`, or `|b|` when there is none. */
  function Find<K(==), V>(b: seq<Entry<K, V>>, key: K): (i: nat)
    ensures i <= |b|
    ensures i < |b| ==> b[i].key == key
    ensures forall j | 0 <= j < i :: b[j].key != key
  {
    if b == [] then 0
    else if b[0].key == key then 0
    else 1 + Find(b[1..], key)
  }

  /**
   * What `get` reports for `key` when scanning bucket `b`: `None` when no
   * entry holds the key, and in a bucket without repeated keys the value of
   * the key's entry.
   */
  function Value<K(==), V>(b: seq<Entry<K, V>>, key: K): (r: Option<V>)
    ensures (forall j | 0 <= j < |b| :: b[j].key != key) ==> r == None
    ensures DistinctKeys(b) ==> forall j | 0 <= j < |b| && b[j].key == key :: r == b[j].value
  {
    var i := Find(b, key);
    if i < |b| then b[i].value else None
  }

  /**
   * Bucket `b` after `insert(key, value)`: the key's first entry, or a new
   * one at the end, holds the value; every other entry stays where it was.
   */
  function Put<K(==), V>(b: seq<Entry<K, V>>, key: K, value: Option<V>): (r: seq<Entry<K, V>>)
    ensures |r| == if Find(b, key) < |b| then |b| else |b| + 1
    ensures r[Find(b, key)] == Entry(key, value)
    ensures forall j | 0 <= j < |r| && j != Find(b, key) :: j < |b| && r[j] == b[j]
  {
    var i := Find(b, key);
    if i < |b| then b[i := b[i].(value := value)] else b + [Entry(key, value)]
  }

  /** No key occurs twice in a bucket. */
  ghost predicate DistinctKeys<K, V>(b: seq<Entry<K, V>>)
  {
    forall i, j | 0 <= i < j < |b| :: b[i].key != b[j].key
  }

  /** After inserting, the bucket reports the new value for that key. */
  lemma ValueOfPutSame<K, V>(b: seq<Entry<K, V>>, key: K, value: Option<V>)
    ensures Find(Put(b, key, value), key) < |Put(b, key, value)|
    ensures Value(Put(b, key, value), key) == value
  {
    var i := Find(b, key);
    var r := Put(b, key, value);
    if i == |b| {
      assert r[|b|].key == key;
    } else {
      assert r[i].key == key;
    }
  }

  /** Inserting one key leaves what the bucket reports for every other key unchanged. */
  lemma ValueOfPutOther<K, V>(b: seq<Entry<K, V>>, key: K, value: Option<V>, other: K)
    requires other != key
    ensures (Find(Put(b, key, value), other) < |Put(b, key, value)|) == (Find(b, other) < |b|)
    ensures Value(Put(b, key, value), other) == Value(b, other)
  {
    var r := Put(b, key, value);
    var i := Find(b, other);
    if i < |b| {
      assert r[i].key == other;
    }
  }

  /** Inserting keeps the keys of a bucket distinct. */
  lemma PutKeepsDistinctKeys<K, V>(b: seq<Entry<K, V>>, key: K, value: Option<V>)
    requires DistinctKeys(b)
    ensures DistinctKeys(Put(b, key, value))
  {
  }

  class HashTable<K(==), V> {
    /** Number of buckets; never changed after construction. */
    const size: nat
    /** The key hash the table uses (Python's built-in `hash`). */
    const hash: K -> int
    /** The buckets. */
    const table: array<seq<Entry<K, V>>>
    /** The abstract contents: the value stored for each present key. */
    ghost var Contents: map<K, Option<V>>

    /** `_hash`: the bucket that `key` belongs in. */
    function Index(key: K): (i: nat)
      requires size > 0
      ensures i < size
    {
      hash(key) % size
    }

    ghost predicate Valid()
      reads this, table
    {
      && size > 0
      && table.Length == size
      // each entry sits in the bucket its key hashes to
      && (forall i, j | 0 <= i < size && 0 <= j < |table[i]| :: Index(table[i][j].key) == i)
      // each bucket holds a key at most once
      && (forall i | 0 <= i < size :: DistinctKeys(table[i]))
      // every stored entry belongs to the abstract contents ...
      && (forall i, j | 0 <= i < size && 0 <= j < |table[i]| :: table[i][j].key in Contents)
      // ... and every key of the contents is found in its bucket with its value
      && (forall k | k in Contents ::
            Find(table[Index(k)], k) < |table[Index(k)]| && Value(table[Index(k)], k) == Contents[k])
    }

    constructor (hash: K -> int, size: nat := DefaultSize)
      requires size > 0
      ensures Valid() && fresh(table)
      ensures this.size == size && this.hash == hash
      ensures Contents == map[]
    {
      this.size := size;
      this.hash := hash;
      this.table := new seq<Entry<K, V>>[size](_ => []);
      Contents := map[];
    }

    /** Stores `value` under `key`, overwriting an existing entry for the key in place. */
    method Insert(key: K, value: Option<V>)
      requires Valid()
      modifies this, table
      ensures Valid()
      ensures Contents == old(Contents)[key := value]
      ensures table[Index(key)] == Put(old(table[Index(key)]), key, value)
      ensures forall i | 0 <= i < size && i != Index(key) :: table[i] == old(table[i])
    {
      var index := Index(key);
      var bucket := table[index];
      var j := 0;
      while j < |bucket|
        invariant j <= |bucket|
        invariant forall m | 0 <= m < j :: bucket[m].key != key
        modifies {}
      {
        if bucket[j].key == key {
          break;
        }
        j := j + 1;
      }
      if j < |bucket| {
        // the key's entry is overwritten in place
        table[index] := bucket[j := bucket[j].(value := value)];
      } else {
        table[index] := bucket + [Entry(key, value)];
      }
      Contents := Contents[key := value];
      InsertKeepsValid(old(Contents), old(table[..]), key, value);
    }

    /** The invariant survives replacing the key's bucket by `Put` of it. */
    lemma InsertKeepsValid(contents: map<K, Option<V>>, buckets: seq<seq<Entry<K, V>>>, key: K, value: Option<V>)
      requires size > 0 && table.Length == size == |buckets|
      requires forall i, j | 0 <= i < size && 0 <= j < |buckets[i]| :: Index(buckets[i][j].key) == i
      requires forall i | 0 <= i < size :: DistinctKeys(buckets[i])
      requires forall i, j | 0 <= i < size && 0 <= j < |buckets[i]| :: buckets[i][j].key in contents
      requires forall k | k in contents ::
        Find(buckets[Index(k)], k) < |buckets[Index(k)]| && Value(buckets[Index(k)], k) == contents[k]
      requires table[Index(key)] == Put(buckets[Index(key)], key, value)
      requires forall i | 0 <= i < size && i != Index(key) :: table[i] == buckets[i]
      requires Contents == contents[key := value]
      ensures Valid()
    {
      var idx := Index(key);
      PutKeepsDistinctKeys(buckets[idx], key, value);
      ValueOfPutSame(buckets[idx], key, value);
      forall k | k in Contents && k != key && Index(k) == idx
        ensures Find(table[idx], k) < |table[idx]| && Value(table[idx], k) == Contents[k]
      {
        ValueOfPutOther(buckets[idx], key, value, k);
      }
    }

    /** The value stored under `key`, or `None` when the key is absent. */
    method Get(key: K) returns (r: Option<V>)
      requires Valid()
      ensures r == (if key in Contents then Contents[key] else None)
      ensures r == Value(table[Index(key)], key)
    {
      var index := Index(key);
      var bucket := table[index];
      var j := 0;
      while j < |bucket|
        invariant j <= |bucket|
        invariant forall m | 0 <= m < j :: bucket[m].key != key
      {
        if bucket[j].key == key {
          return bucket[j].value;
        }
        j := j + 1;
      }
      return None;
    }

    /** Whether `key` is stored with a value other than `None`. */
    method Contains(key: K) returns (b: bool)
      requires Valid()
      ensures b <==> key in Contents && Contents[key].Some?
    {
      var v := Get(key);
      b := v.Some?;
    }
  }
}

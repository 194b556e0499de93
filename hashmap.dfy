/**
 * A string-keyed hash map with separate chaining (include/hashmap.h).
 *
 * The table is a sequence of buckets, each a sequence of (key, value) entries. Its meaning is
 * the ghost map `Contents`. The string hash is a constant function fixed at construction.
 */
module HashTable {
  import opened Options

  /** The association a bucket denotes; a later entry for the same key wins. */
  ghost function EntriesMap<T>(es: seq<(string, T)>): map<string, T>
  {
    if es == [] then map[] else EntriesMap(es[..|es| - 1])[es[|es| - 1].0 := es[|es| - 1].1]
  }

  /** The association a whole table denotes. */
  ghost function TableMap<T>(t: seq<seq<(string, T)>>): map<string, T>
  {
    if t == [] then map[] else TableMap(t[..|t| - 1]) + EntriesMap(t[|t| - 1])
  }

  /** The number of entries over all buckets. */
  ghost function EntryCount<T>(t: seq<seq<(string, T)>>): nat
  {
    if t == [] then 0 else EntryCount(t[..|t| - 1]) + |t[|t| - 1]|
  }

  /** Every entry sits in the bucket its key hashes to. */
  ghost predicate Placed<T>(t: seq<seq<(string, T)>>, hash: string -> nat)
  {
    |t| > 0 &&
    forall b, i :: 0 <= b < |t| && 0 <= i < |t[b]| ==> hash(t[b][i].0) % |t| == b
  }

  /** No bucket holds two entries with the same key. */
  ghost predicate BucketsDistinct<T>(t: seq<seq<(string, T)>>)
  {
    forall b, i, j :: 0 <= b < |t| && 0 <= i < j < |t[b]| ==> t[b][i].0 != t[b][j].0
  }

  /** The representation invariant of a table. */
  ghost predicate TableInv<T>(t: seq<seq<(string, T)>>, hash: string -> nat)
  {
    Placed(t, hash) && BucketsDistinct(t)
  }

  /** The load-factor test that triggers growth before a new entry is added. */
  predicate Overloaded(size: nat, buckets: nat, maxLoad: real)
    requires buckets > 0
  {
    (size + 1) as real / buckets as real > maxLoad
  }

  lemma {:induction false} EntriesMapHasKey<T>(es: seq<(string, T)>, j: nat)
    requires j < |es|
    ensures es[j].0 in EntriesMap(es)
  {
    if j < |es| - 1 {
      EntriesMapHasKey(es[..|es| - 1], j);
    }
  }

  lemma {:induction false} EntriesMapLacks<T>(es: seq<(string, T)>, k: string)
    requires forall j :: 0 <= j < |es| ==> es[j].0 != k
    ensures k !in EntriesMap(es)
  {
    if es != [] {
      EntriesMapLacks(es[..|es| - 1], k);
    }
  }

  /** The value of the last entry for a key is the value the bucket denotes for it. */
  lemma {:induction false} EntriesMapAt<T>(es: seq<(string, T)>, i: nat)
    requires i < |es|
    requires forall j :: i < j < |es| ==> es[j].0 != es[i].0
    ensures es[i].0 in EntriesMap(es) && EntriesMap(es)[es[i].0] == es[i].1
  {
    if i < |es| - 1 {
      EntriesMapAt(es[..|es| - 1], i);
    }
  }

  /** Overwriting the last entry for key k in place updates the denoted map at k. */
  lemma {:induction false} EntriesMapReplace<T>(es: seq<(string, T)>, i: nat, v: T)
    requires i < |es|
    requires forall j :: i < j < |es| ==> es[j].0 != es[i].0
    ensures EntriesMap(es[i := (es[i].0, v)]) == EntriesMap(es)[es[i].0 := v]
  {
    var es' := es[i := (es[i].0, v)];
    var n := |es|;
    if i == n - 1 {
      assert es'[..n - 1] == es[..n - 1];
    } else {
      assert es'[..n - 1] == es[..n - 1][i := (es[i].0, v)];
      EntriesMapReplace(es[..n - 1], i, v);
    }
  }

  lemma EntriesMapAppend<T>(es: seq<(string, T)>, k: string, v: T)
    ensures EntriesMap(es + [(k, v)]) == EntriesMap(es)[k := v]
  {
    assert (es + [(k, v)])[..|es|] == es;
  }

  lemma {:induction false} TableMapLacks<T>(t: seq<seq<(string, T)>>, k: string)
    requires forall b, i :: 0 <= b < |t| && 0 <= i < |t[b]| ==> t[b][i].0 != k
    ensures k !in TableMap(t)
  {
    if t != [] {
      TableMapLacks(t[..|t| - 1], k);
      EntriesMapLacks(t[|t| - 1], k);
    }
  }

  /** When only bucket b can hold key k, the table denotes for k what bucket b denotes. */
  lemma {:induction false} TableMapAt<T>(t: seq<seq<(string, T)>>, b: nat, k: string)
    requires b < |t|
    requires forall c, i :: 0 <= c < |t| && c != b && 0 <= i < |t[c]| ==> t[c][i].0 != k
    ensures k in TableMap(t) <==> k in EntriesMap(t[b])
    ensures k in EntriesMap(t[b]) ==> TableMap(t)[k] == EntriesMap(t[b])[k]
  {
    var n := |t|;
    if b == n - 1 {
      TableMapLacks(t[..n - 1], k);
    } else {
      EntriesMapLacks(t[n - 1], k);
      TableMapAt(t[..n - 1], b, k);
    }
  }

  /** Changing bucket b so that it denotes an update at k updates the table at k,
      provided no later bucket holds k. */
  lemma UnionUpdateRight<T>(a: map<string, T>, e: map<string, T>, k: string, v: T)
    ensures a + e[k := v] == (a + e)[k := v]
  {
  }

  lemma UnionUpdateLeft<T>(a: map<string, T>, e: map<string, T>, k: string, v: T)
    requires k !in e
    ensures a[k := v] + e == (a + e)[k := v]
  {
  }

  lemma {:induction false} TableMapUpdate<T>(t: seq<seq<(string, T)>>, b: nat, es: seq<(string, T)>, k: string, v: T)
    requires b < |t|
    requires EntriesMap(es) == EntriesMap(t[b])[k := v]
    requires forall c, i :: b < c < |t| && 0 <= i < |t[c]| ==> t[c][i].0 != k
    ensures TableMap(t[b := es]) == TableMap(t)[k := v]
  {
    var n := |t|;
    var t': seq<seq<(string, T)>> := t[b := es];
    if b == n - 1 {
      assert t'[..n - 1] == t[..n - 1];
      UnionUpdateRight(TableMap(t[..n - 1]), EntriesMap(t[b]), k, v);
    } else {
      assert t'[..n - 1] == t[..n - 1][b := es];
      EntriesMapLacks(t[n - 1], k);
      TableMapUpdate(t[..n - 1], b, es, k, v);
      UnionUpdateLeft(TableMap(t[..n - 1]), EntriesMap(t[n - 1]), k, v);
    }
  }

  lemma {:induction false} EntryCountUpdate<T>(t: seq<seq<(string, T)>>, b: nat, es: seq<(string, T)>)
    requires b < |t|
    ensures EntryCount(t[b := es]) + |t[b]| == EntryCount(t) + |es|
  {
    var n := |t|;
    var t' := t[b := es];
    if b == n - 1 {
      assert t'[..n - 1] == t[..n - 1];
    } else {
      assert t'[..n - 1] == t[..n - 1][b := es];
      EntryCountUpdate(t[..n - 1], b, es);
    }
  }

  lemma {:induction false} EntryCountPrefix<T>(t: seq<seq<(string, T)>>, i: nat)
    requires i < |t|
    ensures EntryCount(t[..i]) + |t[i]| <= EntryCount(t)
  {
    if i < |t| - 1 {
      assert t[..|t| - 1][..i] == t[..i];
      EntryCountPrefix(t[..|t| - 1], i);
    } else {
      assert t[..|t| - 1] == t[..i];
    }
  }

  /** The bucket a key hashes to decides whether the table holds it and with what value. */
  lemma LookupInBucket<T>(t: seq<seq<(string, T)>>, hash: string -> nat, k: string)
    requires Placed(t, hash)
    ensures k in TableMap(t) <==> k in EntriesMap(t[hash(k) % |t|])
    ensures k in TableMap(t) ==> TableMap(t)[k] == EntriesMap(t[hash(k) % |t|])[k]
  {
    TableMapAt(t, hash(k) % |t|, k);
  }

  /** No key appears in two entries of the table, whatever their buckets. */
  ghost predicate KeysUnique<T>(t: seq<seq<(string, T)>>)
  {
    forall b1, i1, b2, i2 ::
      (0 <= b1 < |t| && 0 <= i1 < |t[b1]| && 0 <= b2 < |t| && 0 <= i2 < |t[b2]| &&
       t[b1][i1].0 == t[b2][i2].0) ==> b1 == b2 && i1 == i2
  }

  /** Across all buckets, no key appears in two entries. */
  lemma KeysAppearOnce<T>(t: seq<seq<(string, T)>>, hash: string -> nat)
    requires TableInv(t, hash)
    ensures KeysUnique(t)
  {
  }

  lemma {:induction false} EntriesMapKeyFrom<T>(es: seq<(string, T)>, k: string)
    requires k in EntriesMap(es)
    ensures exists j :: 0 <= j < |es| && es[j].0 == k
  {
    var n := |es|;
    if es[n - 1].0 != k {
      EntriesMapKeyFrom(es[..n - 1], k);
      var j :| 0 <= j < n - 1 && es[..n - 1][j].0 == k;
      assert es[j].0 == k;
    }
  }

  /** A bucket whose keys are distinct denotes exactly as many keys as it has entries. */
  lemma {:induction false} EntriesMapSize<T>(es: seq<(string, T)>)
    requires forall i, j :: 0 <= i < j < |es| ==> es[i].0 != es[j].0
    ensures |EntriesMap(es)| == |es|
  {
    var n := |es|;
    if n > 0 {
      EntriesMapSize(es[..n - 1]);
      EntriesMapLacks(es[..n - 1], es[n - 1].0);
    }
  }

  /** A table without repeated keys denotes exactly as many keys as it has entries. */
  lemma {:induction false} TableMapSize<T>(t: seq<seq<(string, T)>>)
    requires KeysUnique(t)
    ensures |TableMap(t)| == EntryCount(t)
  {
    var n := |t|;
    if n > 0 {
      var prefix: seq<seq<(string, T)>>, last: seq<(string, T)> := t[..n - 1], t[n - 1];
      assert KeysUnique(prefix) by {
        forall b1, i1, b2, i2 |
          0 <= b1 < |prefix| && 0 <= i1 < |prefix[b1]| && 0 <= b2 < |prefix| && 0 <= i2 < |prefix[b2]| &&
          prefix[b1][i1].0 == prefix[b2][i2].0
          ensures b1 == b2 && i1 == i2
        {
          assert t[b1][i1] == prefix[b1][i1] && t[b2][i2] == prefix[b2][i2];
        }
      }
      TableMapSize(prefix);
      assert forall i, j :: 0 <= i < j < |last| ==> last[i].0 != last[j].0 by {
        forall i, j | 0 <= i < j < |last|
          ensures last[i].0 != last[j].0
        {
          assert t[n - 1][i] == last[i] && t[n - 1][j] == last[j];
        }
      }
      EntriesMapSize(last);
      var a, e := TableMap(prefix), EntriesMap(last);
      forall k | k in e
        ensures k !in a
      {
        EntriesMapKeyFrom(last, k);
        var j :| 0 <= j < |last| && last[j].0 == k;
        forall b, i | 0 <= b < |prefix| && 0 <= i < |prefix[b]|
          ensures prefix[b][i].0 != k
        {
          assert t[b][i] == prefix[b][i] && t[n - 1][j] == last[j];
        }
        TableMapLacks(prefix, k);
      }
      assert (a + e).Keys == a.Keys + e.Keys;
      assert a.Keys !! e.Keys;
    }
  }

  /** Two valid tables that denote the same association hold the same number of entries. */
  lemma SameAssociationSameCount<T>(t1: seq<seq<(string, T)>>, t2: seq<seq<(string, T)>>, hash: string -> nat)
    requires TableInv(t1, hash) && TableInv(t2, hash) && TableMap(t1) == TableMap(t2)
    ensures EntryCount(t1) == EntryCount(t2)
  {
    KeysAppearOnce(t1, hash);
    TableMapSize(t1);
    KeysAppearOnce(t2, hash);
    TableMapSize(t2);
  }

  /** Adding an entry for a key the table does not hold, at the end of the key's bucket,
      keeps the invariant, adds the association and one entry. */
  lemma AppendEntry<T>(t: seq<seq<(string, T)>>, hash: string -> nat, key: string, value: T)
    requires TableInv(t, hash) && key !in TableMap(t)
    ensures var b := hash(key) % |t|;
            var t' := t[b := t[b] + [(key, value)]];
            TableInv(t', hash) && TableMap(t') == TableMap(t)[key := value] &&
            EntryCount(t') == EntryCount(t) + 1
  {
    var b := hash(key) % |t|;
    var bucket := t[b];
    var t': seq<seq<(string, T)>> := t[b := bucket + [(key, value)]];
    LookupInBucket(t, hash, key);
    forall j | 0 <= j < |bucket|
      ensures bucket[j].0 != key
    {
      EntriesMapHasKey(bucket, j);
    }
    forall c: int, i: int | 0 <= c < |t'| && 0 <= i < |t'[c]|
      ensures hash(t'[c][i].0) % |t'| == c
    {
      if c != b || i < |bucket| {
        assert t'[c][i] == t[c][i];
      }
    }
    forall c: int, i: int, j: int | 0 <= c < |t'| && 0 <= i < j < |t'[c]|
      ensures t'[c][i].0 != t'[c][j].0
    {
      if c != b || j < |bucket| {
        assert t'[c][i] == t[c][i] && t'[c][j] == t[c][j];
      }
    }
    EntriesMapAppend(bucket, key, value);
    TableMapUpdate(t, b, bucket + [(key, value)], key, value);
    EntryCountUpdate(t, b, bucket + [(key, value)]);
  }

  /** Overwriting the value of entry i of bucket b keeps the invariant and the entry count,
      and updates the association of that entry's key. */
  lemma ReplaceEntry<T>(t: seq<seq<(string, T)>>, hash: string -> nat, b: nat, i: nat, value: T)
    requires TableInv(t, hash) && b < |t| && i < |t[b]|
    ensures var t' := t[b := t[b][i := (t[b][i].0, value)]];
            TableInv(t', hash) && TableMap(t') == TableMap(t)[t[b][i].0 := value] &&
            EntryCount(t') == EntryCount(t)
  {
    var bucket := t[b];
    var key := bucket[i].0;
    EntriesMapReplace(bucket, i, value);
    TableMapUpdate(t, b, bucket[i := (key, value)], key, value);
    EntryCountUpdate(t, b, bucket[i := (key, value)]);
  }

  lemma UnionStep<T>(m: map<string, T>, es: seq<(string, T)>, j: nat, before: map<string, T>, after: map<string, T>)
    requires j < |es|
    requires before == m + EntriesMap(es[..j])
    requires after == before[es[j].0 := es[j].1]
    ensures after == m + EntriesMap(es[..j + 1])
  {
    assert es[..j + 1] == es[..j] + [es[j]];
    EntriesMapAppend(es[..j], es[j].0, es[j].1);
  }

  lemma PrefixStep<T>(t: seq<seq<(string, T)>>, i: nat, before: map<string, T>, after: map<string, T>)
    requires i < |t|
    requires before == TableMap(t[..i])
    requires after == before + EntriesMap(t[i])
    ensures after == TableMap(t[..i + 1])
    ensures EntryCount(t[..i + 1]) == EntryCount(t[..i]) + |t[i]|
  {
    assert t[..i + 1][..i] == t[..i];
  }

  lemma DivMonotone(x: real, y: real, d: real)
    requires 0.0 < d && x <= y
    ensures x / d <= y / d
  {
  }

  class HashMap<T> {
    const hash: string -> nat
    var table: seq<seq<(string, T)>>
    var size: nat
    var buckets: nat
    var maxLoad: real
    ghost var Contents: map<string, T>

    ghost predicate Valid()
      reads this
    {
      && buckets > 0
      && |table| == buckets
      && maxLoad > 0.0
      && TableInv(table, hash)
      && Contents == TableMap(table)
      && size == EntryCount(table)
    }

    /** HashMap(max_load): ten empty buckets; a non-positive load factor becomes 0.75. */
    constructor (maxLoad: real, hash: string -> nat)
      ensures Valid() && this.hash == hash
      ensures Contents == map[] && size == 0 && buckets == 10
      ensures this.maxLoad == if maxLoad <= 0.0 then 0.75 else maxLoad
    {
      this.hash := hash;
      table := seq(10, _ => []);
      size := 0;
      buckets := 10;
      this.maxLoad := if maxLoad <= 0.0 then 0.75 else maxLoad;
      Contents := map[];
      new;
      TableMapLacksAll(table);
    }

    /** The private HashMap(buckets, max_load) used when the table grows. */
    constructor Sized(buckets: nat, maxLoad: real, hash: string -> nat)
      requires buckets > 0
      ensures Valid() && this.hash == hash
      ensures Contents == map[] && size == 0 && this.buckets == buckets
      ensures this.maxLoad == if maxLoad <= 0.0 then 0.75 else maxLoad
    {
      this.hash := hash;
      table := seq(buckets, _ => []);
      size := 0;
      this.buckets := buckets;
      this.maxLoad := if maxLoad <= 0.0 then 0.75 else maxLoad;
      Contents := map[];
      new;
      TableMapLacksAll(table);
    }

    static lemma {:induction false} TableMapLacksAll(t: seq<seq<(string, T)>>)
      requires forall b :: 0 <= b < |t| ==> t[b] == []
      ensures TableMap(t) == map[] && EntryCount(t) == 0
    {
      if t != [] {
        TableMapLacksAll(t[..|t| - 1]);
        assert EntriesMap(t[|t| - 1]) == map[];
      }
    }

    function Size(): (n: nat)
      reads this
      requires Valid()
      ensures n == |Contents|
    {
      KeysAppearOnce(table, hash);
      TableMapSize(table);
      size
    }

    function BucketOf(key: string): (b: nat)
      reads this
      requires Valid()
      ensures b < |table|
    {
      hash(key) % buckets
    }

    /** The scan of find: the position of key within its bucket, if any. */
    method FindSlot(key: string) returns (slot: Option<nat>)
      requires Valid()
      ensures slot.None? <==> key !in Contents
      ensures slot.Some? ==> slot.value < |table[BucketOf(key)]| &&
                             table[BucketOf(key)][slot.value].0 == key &&
                             Contents[key] == table[BucketOf(key)][slot.value].1
    {
      var bucket := table[hash(key) % buckets];
      var i := 0;
      while i < |bucket|
        invariant i <= |bucket|
        invariant forall j :: 0 <= j < i ==> bucket[j].0 != key
      {
        if bucket[i].0 == key {
          LookupInBucket(table, hash, key);
          EntriesMapAt(bucket, i);
          return Some(i);
        }
        i := i + 1;
      }
      LookupInBucket(table, hash, key);
      EntriesMapLacks(bucket, key);
      return None;
    }

    /** find: the value associated with key, or nothing. */
    method Find(key: string) returns (r: Option<T>)
      requires Valid()
      ensures r == if key in Contents then Some(Contents[key]) else None
    {
      var slot := FindSlot(key);
      if slot.None? {
        r := None;
      } else {
        r := Some(table[hash(key) % buckets][slot.value].1);
      }
    }

    /** swap: exchange the whole state of two maps. */
    method Swap(other: HashMap<T>)
      requires Valid() && other.Valid() && other != this && other.hash == hash
      modifies this, other
      ensures Valid() && other.Valid()
      ensures table == old(other.table) && size == old(other.size) && buckets == old(other.buckets)
      ensures maxLoad == old(other.maxLoad) && Contents == old(other.Contents)
      ensures other.table == old(table) && other.size == old(size) && other.buckets == old(buckets)
      ensures other.maxLoad == old(maxLoad) && other.Contents == old(Contents)
    {
      table, other.table := other.table, table;
      size, other.size := other.size, size;
      buckets, other.buckets := other.buckets, buckets;
      maxLoad, other.maxLoad := other.maxLoad, maxLoad;
      Contents, other.Contents := other.Contents, Contents;
    }

    /** The inner loop of the growth step: insert every entry of one old bucket. */
    method InsertAll(es: seq<(string, T)>)
      requires Valid()
      modifies this
      ensures Valid() && maxLoad == old(maxLoad)
      ensures Contents == old(Contents) + EntriesMap(es)
      ensures size <= old(size) + |es|
      ensures buckets >= old(buckets)
      ensures (old(size) + |es|) as real / old(buckets) as real <= maxLoad ==> buckets == old(buckets)
      decreases size + |es|, 1
    {
      var j := 0;
      while j < |es|
        invariant j <= |es|
        invariant Valid() && maxLoad == old(maxLoad)
        invariant Contents == old(Contents) + EntriesMap(es[..j])
        invariant size <= old(size) + j
        invariant buckets >= old(buckets)
        invariant (old(size) + |es|) as real / old(buckets) as real <= maxLoad ==> buckets == old(buckets)
      {
        ghost var before := Contents;
        if (old(size) + |es|) as real / old(buckets) as real <= maxLoad {
          DivMonotone((size + 1) as real, (old(size) + |es|) as real, buckets as real);
        }
        Insert(es[j].0, es[j].1);
        UnionStep(old(Contents), es, j, before, Contents);
        j := j + 1;
      }
      assert es[..j] == es;
    }

    /** The loop of the growth step: re-insert every entry of this table into target. */
    method CopyInto(target: HashMap<T>)
      requires Valid() && target.Valid() && target != this
      requires target.hash == hash && target.Contents == map[] && target.size == 0
      modifies target
      ensures target.Valid() && target.hash == hash && target.maxLoad == old(target.maxLoad)
      ensures target.Contents == Contents
      ensures target.buckets >= old(target.buckets)
      ensures size as real / old(target.buckets) as real <= target.maxLoad ==>
                target.buckets == old(target.buckets)
      decreases size, 2
    {
      var i := 0;
      while i < |table|
        invariant i <= |table|
        invariant target.Valid() && target.maxLoad == old(target.maxLoad)
        invariant target.Contents == TableMap(table[..i])
        invariant target.size <= EntryCount(table[..i])
        invariant target.buckets >= old(target.buckets)
        invariant size as real / old(target.buckets) as real <= target.maxLoad ==>
                    target.buckets == old(target.buckets)
      {
        EntryCountPrefix(table, i);
        if size as real / old(target.buckets) as real <= target.maxLoad {
          DivMonotone((target.size + |table[i]|) as real, size as real, target.buckets as real);
        }
        ghost var before := target.Contents;
        target.InsertAll(table[i]);
        PrefixStep(table, i, before, target.Contents);
        i := i + 1;
      }
      assert table[..i] == table;
    }

    /** The growth step of insert: re-insert every entry into a map with twice the buckets,
        then take over its state (copy and swap). */
    method Rehash()
      requires Valid()
      modifies this
      ensures Valid()
      ensures Contents == old(Contents) && size == old(size) && maxLoad == old(maxLoad)
      ensures buckets >= 2 * old(buckets)
      ensures old(size) as real / (2 * old(buckets)) as real <= maxLoad ==> buckets == 2 * old(buckets)
      decreases size, 3
    {
      var newHm := new HashMap<T>.Sized(buckets * 2, maxLoad, hash);
      CopyInto(newHm);
      SameAssociationSameCount(table, newHm.table, hash);
      Swap(newHm);
    }

    /** insert: overwrite the value of an existing key, or add a new entry, growing first
        when the load factor would be exceeded. */
    method Insert(key: string, value: T)
      requires Valid()
      modifies this
      ensures Valid() && maxLoad == old(maxLoad)
      ensures Contents == old(Contents)[key := value]
      ensures key in old(Contents) ==> size == old(size) && buckets == old(buckets)
      ensures key !in old(Contents) ==> size == old(size) + 1
      ensures key !in old(Contents) && !Overloaded(old(size), old(buckets), maxLoad) ==>
                buckets == old(buckets)
      ensures key !in old(Contents) && Overloaded(old(size), old(buckets), maxLoad) ==>
                buckets >= 2 * old(buckets)
      ensures key !in old(Contents) && Overloaded(old(size), old(buckets), maxLoad) &&
              old(size) as real / (2 * old(buckets)) as real <= maxLoad ==>
                buckets == 2 * old(buckets)
      decreases size, 4
    {
      var slot := FindSlot(key);
      if slot.None? {
        if Overloaded(size, buckets, maxLoad) {
          Rehash();
        }
        var b := hash(key) % buckets;
        AppendEntry(table, hash, key, value);
        table := table[b := table[b] + [(key, value)]];
        size := size + 1;
        Contents := Contents[key := value];
      } else {
        var b := hash(key) % buckets;
        var i := slot.value;
        ReplaceEntry(table, hash, b, i, value);
        table := table[b := table[b][i := (key, value)]];
        Contents := Contents[key := value];
      }
    }

    /** operator[]: the value for key, inserting the default value first when key is absent. */
    method Index(key: string, dflt: T) returns (v: T)
      requires Valid()
      modifies this
      ensures Valid() && maxLoad == old(maxLoad)
      ensures key in old(Contents) ==>
                v == old(Contents)[key] && Contents == old(Contents) &&
                table == old(table) && size == old(size) && buckets == old(buckets)
      ensures key !in old(Contents) ==>
                v == dflt && Contents == old(Contents)[key := dflt] && size == old(size) + 1
      ensures key !in old(Contents) && !Overloaded(old(size), old(buckets), maxLoad) ==>
                buckets == old(buckets)
      ensures key !in old(Contents) && Overloaded(old(size), old(buckets), maxLoad) ==>
                buckets >= 2 * old(buckets)
      ensures key !in old(Contents) && Overloaded(old(size), old(buckets), maxLoad) &&
              old(size) as real / (2 * old(buckets)) as real <= maxLoad ==>
                buckets == 2 * old(buckets)
    {
      var found := Find(key);
      if found.None? {
        Insert(key, dflt);
        var again := Find(key);
        v := again.value;
      } else {
        v := found.value;
      }
    }
  }
}

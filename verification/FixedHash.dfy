/**
  FixedHash (util/fixed_hash.h): a key map whose values are indices into a Pool. Keys are values,
  so no key refers to a slot of the pool.
 */
module FixedHash {
  import opened Bits
  import opened Memory
  import opened Pool

  datatype Position =
    | Nowhere                                 // {invalid, nullptr}
    | Threw                                   // the element's constructor threw
    | Found(index: nat, value: bytes)

  ghost predicate Injective<K(!new)>(m: map<K, nat>) {
    forall j, k :: j in m && k in m && m[j] == m[k] ==> j == k
  }

  /** Keys and allocated indices correspond one to one. */
  ghost predicate Matches<K(!new)>(m: map<K, nat>, c: map<nat, bytes>) {
    && Injective(m)
    && (forall k :: k in m ==> m[k] in c)
    && Onto(m, c)
    && |m| == |c|
  }

  /** The finite map the container stands for. */
  ghost function Join<K(!new)>(m: map<K, nat>, c: map<nat, bytes>): map<K, bytes>
    requires forall k :: k in m ==> m[k] in c
  {
    map k | k in m :: c[m[k]]
  }

  class FixedHash<K(==,!new)> {
    var index: map<K, nat>
    const pool: Pool

    ghost predicate Valid() reads this, pool, pool.alloc, pool.alloc.pool, pool.inUse {
      pool.Valid() && Matches(index, pool.Contents())
    }

    ghost function Model(): map<K, bytes>
      requires Valid()
      reads this, pool, pool.alloc, pool.alloc.pool, pool.inUse
    {
      Join(index, pool.Contents())
    }

    constructor (elemSize: u32, size: u32)
      requires 0 < size <= 0x4000_0000 && elemSize >= 4 && (size - 1) * elemSize < TWO32
      ensures Valid() && Model() == map[] && pool.Capacity() == size && pool.alloc.elemSize == elemSize
      ensures fresh(pool) && fresh(pool.alloc) && fresh(pool.alloc.pool) && fresh(pool.inUse)
    {
      index := map[];
      pool := new Pool(elemSize, size);
    }

    method Find(key: K) returns (r: Position)
      requires Valid()
      ensures key in Model() ==> r.Found? && r.value == Model()[key] && key in index && r.index == index[key]
      ensures key !in Model() ==> r == Nowhere
    {
      if key !in index { return Nowhere; }
      var v := pool.Get(index[key]);
      return Found(index[key], v);
    }

    /** insert: succeeds exactly when there is room, the key is new and construction does not throw. */
    method Insert(key: K, value: bytes, throws: bool) returns (r: Position)
      requires Valid() && |value| == pool.alloc.elemSize
      modifies this, pool, pool.alloc, pool.alloc.pool, pool.inUse
      ensures Valid()
      ensures r.Found? <==> |old(Model())| < pool.Capacity() && key !in old(Model()) && !throws
      ensures r.Threw? <==> |old(Model())| < pool.Capacity() && key !in old(Model()) && throws
      ensures r.Found? ==> r.value == value
      ensures Model() == if r.Found? then old(Model())[key := value] else old(Model())
      ensures index == if r.Found? then old(index)[key := r.index] else old(index)
    {
      hide Matches, Join, Pool.Valid, Pool.Contents;
      ghost var c := pool.Contents();
      JoinCount(index, c);
      var n := pool.Size();
      if n == pool.Capacity() { return Nowhere; }
      if key in index { return Nowhere; }
      var e := pool.Emplace(value, throws);
      if e.Threw? { return Position.Threw; }
      if e.Full? { return Nowhere; }
      InsertMatches(index, c, key, e.index, value);
      index := index[key := e.index];
      return Found(e.index, value);
    }

    method Erase(key: K) returns (r: bool)
      requires Valid()
      modifies this, pool, pool.alloc, pool.alloc.pool, pool.inUse
      ensures Valid()
      ensures r <==> key in old(Model())
      ensures Model() == old(Model()) - {key} && index == old(index) - {key}
    {
      hide Matches, Join, Pool.Valid, Pool.Contents;
      JoinCount(index, pool.Contents());
      if key !in index { return false; }
      var i := index[key];
      EraseMatches(index, pool.Contents(), key);
      pool.Remove(i);
      index := index - {key};
      return true;
    }
  }

  lemma JoinCount<K(!new)>(m: map<K, nat>, c: map<nat, bytes>)
    requires Matches(m, c)
    ensures Join(m, c).Keys == m.Keys && |Join(m, c)| == |m| == |c|
  {
    assert Join(m, c).Keys == m.Keys;
    assert |Join(m, c)| == |Join(m, c).Keys|;
  }

  lemma InsertMatches<K(!new)>(m: map<K, nat>, c: map<nat, bytes>, key: K, i: nat, value: bytes)
    requires Matches(m, c) && key !in m && i !in c
    ensures Matches(m[key := i], c[i := value])
    ensures Join(m[key := i], c[i := value]) == Join(m, c)[key := value]
  {
    hide Onto;
    InsertOnto(m, c, key, i, value);
  }

  /** Every allocated index has a key. */
  ghost predicate Onto<K(!new)>(m: map<K, nat>, c: map<nat, bytes>) {
    forall i :: i in c ==> exists k :: k in m && m[k] == i
  }

  lemma InsertOnto<K(!new)>(m: map<K, nat>, c: map<nat, bytes>, key: K, i: nat, value: bytes)
    requires Onto(m, c) && key !in m
    ensures Onto(m[key := i], c[i := value])
  {
    var m', c' := m[key := i], c[i := value];
    forall j | j in c' ensures exists k :: k in m' && m'[k] == j {
      if j == i {
        assert m'[key] == i;
      } else {
        var k :| k in m && m[k] == j;
        assert m'[k] == j;
      }
    }
  }

  lemma EraseOnto<K(!new)>(m: map<K, nat>, c: map<nat, bytes>, key: K)
    requires Onto(m, c) && key in m
    ensures Onto(m - {key}, c - {m[key]})
  {
    var m', c' := m - {key}, c - {m[key]};
    forall j | j in c' ensures exists k :: k in m' && m'[k] == j {
      var k :| k in m && m[k] == j;
      assert m'[k] == j;
    }
  }

  lemma EraseMatches<K(!new)>(m: map<K, nat>, c: map<nat, bytes>, key: K)
    requires Matches(m, c) && key in m
    ensures m[key] in c && Matches(m - {key}, c - {m[key]})
    ensures Join(m - {key}, c - {m[key]}) == Join(m, c) - {key}
  {
    hide Onto;
    EraseOnto(m, c, key);
    RemoveCount(m, key);
    RemoveCount(c, m[key]);
  }

  lemma RemoveCount<K, V>(m: map<K, V>, key: K)
    requires key in m
    ensures |m - {key}| == |m| - 1
  {
    assert (m - {key}).Keys == m.Keys - {key};
    assert |m - {key}| == |(m - {key}).Keys|;
  }
}

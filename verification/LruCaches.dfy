/** The LRU cache of lru_cache.h: a linked list of entries, an index from keys into the list, and a
    size counter, kept in agreement by every method. */
module LruCaches {
  import opened Wrappers
  import opened LruSpec

  /** A list node; a reference to it plays the part of a list iterator. */
  class Entry<K, V> {
    const key: K
    const data: V

    constructor (key: K, data: V)
      ensures this.key == key && this.data == data
    {
      this.key, this.data := key, data;
    }
  }

  function ItemOf<K, V>(e: Entry<K, V>): Item<K, V> { Item(e.key, e.data) }

  function Items<K, V>(l: seq<Entry<K, V>>): seq<Item<K, V>> {
    seq(|l|, i requires 0 <= i < |l| => ItemOf(l[i]))
  }

  /** Takes a node out of the list. */
  function Unlink<K, V>(l: seq<Entry<K, V>>, e: Entry<K, V>): seq<Entry<K, V>> {
    if l == [] then [] else if l[0] == e then l[1..] else [l[0]] + Unlink(l[1..], e)
  }

  lemma {:induction false} UnlinkIsWithout<K, V>(l: seq<Entry<K, V>>, e: Entry<K, V>)
    requires Distinct(Items(l)) && e in l
    ensures Items(Unlink(l, e)) == Without(Items(l), e.key)
    ensures Find(Items(l), e.key) == Some(e.data)
    ensures forall x :: x in Unlink(l, e) <==> x in l && x != e
  {
    assert Items(l)[1..] == Items(l[1..]);
    if l[0] == e {
      forall x | x in l[1..]
        ensures x != e
      {
        var i :| 0 <= i < |l[1..]| && l[1..][i] == x;
        assert Items(l)[0].key != Items(l)[i + 1].key;
      }
    } else {
      UnlinkIsWithout(l[1..], e);
      var i :| 0 < i < |l| && l[i] == e;
      assert Items(l)[0].key != Items(l)[i].key;
    }
  }

  lemma AbsentIsWithout<K, V>(l: seq<Entry<K, V>>, k: K)
    requires forall e | e in l :: e.key != k
    ensures Without(Items(l), k) == Items(l) && Find(Items(l), k) == None
    decreases |l|
  {
    if l != [] {
      assert Items(l)[1..] == Items(l[1..]);
      AbsentIsWithout(l[1..], k);
    }
  }

  /** The list with a node spliced to the front. */
  lemma Spliced<K, V>(l: seq<Entry<K, V>>, e: Entry<K, V>)
    requires Distinct(Items(l)) && e in l
    ensures Items([e] + Unlink(l, e)) == MoveToFront(Items(l), e.key) && Distinct(Items([e] + Unlink(l, e)))
    ensures forall x :: x in [e] + Unlink(l, e) <==> x in l
  {
    UnlinkIsWithout(l, e);
    WithoutDistinct(Items(l), e.key);
    assert Items([e] + Unlink(l, e)) == [ItemOf(e)] + Items(Unlink(l, e));
  }

  class LruCache<K(==), V> {
    var list: seq<Entry<K, V>>
    var index: map<K, Entry<K, V>>
    const maxSize: nat
    var currSize: nat
    const size: V -> nat

    ghost function Contents(): seq<Item<K, V>>
      reads this
    {
      Items(list)
    }

    /** The list has no duplicate keys, the index maps exactly the listed keys to their own nodes,
        and the counter is the total size of the entries. */
    ghost predicate Valid()
      reads this
    {
      && Distinct(Items(list))
      && (forall k | k in index :: index[k] in list && index[k].key == k)
      && (forall e | e in list :: e.key in index && index[e.key] == e)
      && currSize == TotalSize(Items(list), size)
    }

    constructor (maxSize: nat, size: V -> nat)
      ensures Valid() && Contents() == [] && this.maxSize == maxSize && this.size == size
    {
      list, index, currSize := [], map[], 0;
      this.maxSize, this.size := maxSize, size;
    }

    method Clear()
      requires Valid()
      modifies this
      ensures Valid() && Contents() == Apply(old(Contents()), Op.Clear, size, maxSize)
      ensures Contents() == []
    {
      list, index, currSize := [], map[], 0;
    }

    method Exists(key: K) returns (b: bool)
      requires Valid()
      ensures b <==> Find(Contents(), key).Some?
    {
      Lookup(key);
      b := key in index;
    }

    /** The index answers every lookup as a search of the list would. */
    lemma Lookup(key: K)
      requires Valid()
      ensures key in index <==> Find(Contents(), key).Some?
      ensures key in index ==> Find(Contents(), key) == Some(index[key].data)
      ensures key !in index ==> Without(Contents(), key) == Contents()
    {
      if key in index { UnlinkIsWithout(list, index[key]); } else { AbsentIsWithout(list, key); }
    }

    method RemoveEntry(e: Entry<K, V>)
      requires Valid() && e in list
      modifies this
      ensures Valid() && Contents() == Without(old(Contents()), e.key)
      ensures e.key !in index && list == Unlink(old(list), e)
    {
      UnlinkIsWithout(list, e);
      WithoutDistinct(Contents(), e.key);
      TotalWithout(Contents(), e.key, size);
      currSize := currSize - size(e.data);
      list := Unlink(list, e);
      index := index - {e.key};
      KeysApart(old(list), e);
    }

    method Remove(key: K)
      requires Valid()
      modifies this
      ensures Valid() && Contents() == Apply(old(Contents()), Op.Remove(key), size, maxSize)
      ensures OnlyLost(old(Contents()), Contents(), key)
    {
      RemoveKey(key);
      WithoutLoses(old(Contents()), Contents(), key);
    }

    /** Unlinks the node that the index finds. */
    method RemoveKey(key: K)
      requires Valid()
      modifies this
      ensures Valid() && Contents() == Without(old(Contents()), key)
    {
      Lookup(key);
      if key !in index { return; }
      RemoveEntry(index[key]);
    }

    /** The splice to the front; the index keeps pointing at the same nodes. */
    method TouchKey(key: K)
      requires Valid()
      modifies this`list
      ensures Valid() && Contents() == MoveToFront(old(Contents()), key)
      ensures key in index ==> index[key] in list
    {
      Lookup(key);
      if key !in index { return; }
      var e := index[key];
      Spliced(list, e);
      TotalMoved(Contents(), key, size);
      list := [e] + Unlink(list, e);
    }

    method Touch(key: K)
      requires Valid()
      modifies this
      ensures Valid() && Contents() == Apply(old(Contents()), Op.Touch(key), size, maxSize)
      ensures Find(old(Contents()), key).Some? ==> Contents() != [] && Contents()[0].key == key
    {
      TouchKey(key);
    }

    /** A copy of the data, or None for the empty object. */
    method Fetch(key: K, touch: bool) returns (data: Option<V>)
      requires Valid()
      modifies this
      ensures Valid() && Contents() == Apply(old(Contents()), Op.Fetch(key, touch), size, maxSize)
      ensures data == Find(old(Contents()), key)
    {
      Lookup(key);
      if key !in index { return None; }
      data := Some(index[key].data);
      if touch { TouchKey(key); }
    }

    /** The flag is ignored: a pointer fetch always touches. */
    method FetchPtr(key: K, touch: bool) returns (e: Option<Entry<K, V>>)
      requires Valid()
      modifies this
      ensures Valid() && Contents() == Apply(old(Contents()), Op.FetchPtr(key, touch), size, maxSize)
      ensures (if e.Some? then Some(e.value.data) else None) == Find(old(Contents()), key)
    {
      Lookup(key);
      if key !in index { return None; }
      e := Some(index[key]);
      assert Some(e.value.data) == Find(Contents(), key);
      TouchKey(key);
    }

    method Insert(key: K, data: V)
      requires Valid()
      modifies this
      ensures Valid() && Contents() == Apply(old(Contents()), Op.Insert(key, data), size, maxSize)
      ensures size(data) <= maxSize ==> Contents() != [] && Contents()[0] == Item(key, data)
      ensures size(data) > maxSize ==> Contents() == []
    {
      FitKeepsFront(Item(key, data), Without(Contents(), key), size, maxSize);
      Displace(key);
      PushFront(key, data);
      ghost var full := Contents();
      while currSize > maxSize
        invariant Valid()
        invariant Fit(full, size, maxSize) == Fit(Contents(), size, maxSize)
        decreases |list|
      {
        EvictLast();
      }
    }

    /** Touches the key and removes it, if it is there. */
    method Displace(key: K)
      requires Valid()
      modifies this
      ensures Valid() && Contents() == Without(old(Contents()), key) && key !in index
    {
      Lookup(key);
      TouchKey(key);
      if key in index {
        TouchedThenRemoved(old(Contents()), key);
        RemoveEntry(index[key]);
      }
    }

    method EvictLast()
      requires Valid() && list != []
      modifies this
      ensures Valid() && |list| == |old(list)| - 1
      ensures Contents() == old(Contents())[..|old(Contents())| - 1]
    {
      LastUnlinked(list);
      RemoveEntry(list[|list| - 1]);
    }

    method PushFront(key: K, data: V)
      requires Valid() && key !in index
      modifies this
      ensures Valid() && Contents() == [Item(key, data)] + old(Contents())
    {
      var e := new Entry(key, data);
      list := [e] + list;
      index := index[key := e];
      currSize := currSize + size(data);
      assert Contents() == [Item(key, data)] + old(Contents());
      TotalSplit([Item(key, data)], old(Contents()), size);
      assert [Item(key, data)][..0] == [];
    }

    method GetAllKeys() returns (keys: seq<K>)
      requires Valid()
      ensures |keys| == |Contents()| && forall i | 0 <= i < |keys| :: keys[i] == Contents()[i].key
    {
      keys := [];
      var i := 0;
      while i < |list|
        invariant 0 <= i <= |list| && |keys| == i
        invariant forall j | 0 <= j < i :: keys[j] == list[j].key
      {
        keys := keys + [list[i].key];
        i := i + 1;
      }
    }
  }

  lemma KeysApart<K, V>(l: seq<Entry<K, V>>, e: Entry<K, V>)
    requires Distinct(Items(l)) && e in l
    ensures forall x | x in l && x != e :: x.key != e.key
  {
    forall x | x in l && x != e
      ensures x.key != e.key
    {
      var i :| 0 <= i < |l| && l[i] == e;
      var j :| 0 <= j < |l| && l[j] == x;
      assert Items(l)[i] == ItemOf(e) && Items(l)[j] == ItemOf(x);
    }
  }

  lemma {:induction false} LastUnlinked<K, V>(l: seq<Entry<K, V>>)
    requires l != [] && Distinct(Items(l))
    ensures Unlink(l, l[|l| - 1]) == l[..|l| - 1]
  {
    if |l| > 1 {
      assert Items(l)[1..] == Items(l[1..]);
      assert Items(l)[0].key != Items(l)[|l| - 1].key;
      LastUnlinked(l[1..]);
    }
  }

  lemma TouchedThenRemoved<K, V>(l: seq<Item<K, V>>, k: K)
    ensures Find(l, k).Some? ==> Without(MoveToFront(l, k), k) == Without(l, k)
  {
  }
}

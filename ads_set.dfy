/**
 The first phase of a separate-chaining hash set: a table of `maxSz` buckets,
 each heading a chain of keys (newest first), the element count `sz`, chaining
 insert, lookup, and growth by doubling when the load factor demands it.
 */
module HashTable {
  import opened Chains

  class AdsSet<Key(==,0)> {
    /** The hash of a key; any function will do, the table only reduces it modulo `maxSz`. */
    const hash: Key -> nat
    /** Number of keys stored. */
    var sz: nat
    /** Number of buckets. */
    var maxSz: nat
    /** The buckets; `buckets[i]` is the chain headed by bucket `i`, newest key first. */
    var buckets: array<seq<Key>>
    /** The keys the set holds: the keys found in the chains. */
    ghost var Contents: set<Key>

    /** The layout: one bucket per slot, each key in its hashed bucket, `sz` the total chain length. */
    ghost predicate Consistent()
      reads this, buckets
    {
      && maxSz >= 1
      && buckets.Length == maxSz
      && Hashed(hash, buckets[..])
      && sz == |Flatten(buckets[..])|
      && Contents == Members(Flatten(buckets[..]))
    }

    /** The invariant between public operations: a consistent layout, no key twice, fewer keys than buckets. */
    ghost predicate Valid()
      reads this, buckets
    {
      && Consistent()
      && Distinct(Flatten(buckets[..]))
      && sz == |Contents|
      && sz < maxSz
    }

    /** An empty table of `n` buckets (the default constructor, with `n` for the template's `N`). */
    constructor (n: nat, hash: Key -> nat)
      requires n >= 1
      ensures Valid() && fresh(buckets)
      ensures this.hash == hash && sz == 0 && maxSz == n
      ensures forall i :: 0 <= i < n ==> buckets[i] == []
      ensures Contents == {}
    {
      this.hash := hash;
      sz := 0;
      maxSz := n;
      Contents := {};
      buckets := new seq<Key>[n];
      new;
      for i := 0 to n
        modifies buckets
        invariant forall j :: 0 <= j < i ==> buckets[j] == []
      {
        buckets[i] := [];
      }
      FlattenNil(buckets[..]);
    }

    /** A table of `n` buckets filled from `keys` (the range and initializer-list constructors). */
    constructor FromRange(n: nat, hash: Key -> nat, keys: seq<Key>)
      requires n >= 1
      ensures Valid() && fresh(buckets)
      ensures this.hash == hash
      ensures Contents == Members(keys)
      ensures sz == |Members(keys)|
    {
      this.hash := hash;
      sz := 0;
      maxSz := n;
      Contents := {};
      buckets := new seq<Key>[n](_ => []);
      new;
      assert buckets[..] == EmptyTable(n);
      FlattenNil(buckets[..]);
      assert Valid();
      Insert(keys);
    }

    /** Chaining insert without a duplicate check: `v` becomes the head of bucket `hash(v) % maxSz`. */
    method InsertHash(v: Key)
      requires Consistent()
      modifies this, buckets
      ensures Consistent()
      ensures buckets == old(buckets) && maxSz == old(maxSz) && sz == old(sz) + 1
      ensures buckets[Slot(hash, v, maxSz)] == [v] + old(buckets[Slot(hash, v, maxSz)])
      ensures forall i :: 0 <= i < maxSz && i != Slot(hash, v, maxSz) ==> buckets[i] == old(buckets[i])
      ensures buckets[..] == Push(hash, old(buckets[..]), v)
      ensures multiset(Flatten(buckets[..])) == multiset(Flatten(old(buckets[..]))) + multiset{v}
      ensures Contents == old(Contents) + {v}
      ensures old(Distinct(Flatten(buckets[..]))) && v !in old(Contents) ==> Distinct(Flatten(buckets[..]))
    {
      var k := hash(v) % maxSz;
      buckets[k] := [v] + buckets[k];
      sz := sz + 1;
      Contents := Contents + {v};
      ghost var before := old(buckets[..]);
      assert buckets[..] == Push(hash, before, v);
      PushHashed(hash, before, v);
      PushKeys(hash, before, v);
      assert |multiset(Flatten(buckets[..]))| == |multiset(Flatten(before))| + 1;
      AddKey(Flatten(buckets[..]), Flatten(before), v);
    }

    /** The first half of growth: every key, bucket 0 first, copied into a fresh buffer of `maxSz` slots. */
    method CollectKeys() returns (help: array<Key>, ind: nat)
      requires Consistent()
      requires sz <= maxSz
      ensures fresh(help) && help.Length == maxSz
      ensures ind == sz
      ensures help[..ind] == Flatten(buckets[..])
    {
      ghost var before := buckets[..];
      ind := 0;
      help := new Key[maxSz];
      for i := 0 to maxSz
        modifies help
        invariant ind == |Flatten(before[..i])| <= maxSz
        invariant help[..ind] == Flatten(before[..i])
      {
        var elem := buckets[i];
        FlattenLast(before, i);
        FlattenPrefixShorter(before, i + 1);
        while elem != []
          modifies help
          invariant |elem| <= |before[i]|
          invariant elem == before[i][|before[i]| - |elem|..]
          invariant ind == |Flatten(before[..i])| + (|before[i]| - |elem|) <= maxSz
          invariant help[..ind] == Flatten(before[..i]) + before[i][..|before[i]| - |elem|]
        {
          help[ind] := elem[0];
          ind := ind + 1;
          elem := elem[1..];
        }
        assert before[i][..|before[i]|] == before[i];
      }
      assert before[..maxSz] == before;
    }

    /** The second half of growth: the collected keys chained in, first to last. */
    method InsertEach(keys: seq<Key>)
      requires Consistent()
      modifies this, buckets
      ensures Consistent()
      ensures buckets == old(buckets) && maxSz == old(maxSz) && sz == old(sz) + |keys|
      ensures buckets[..] == PushAll(hash, old(buckets[..]), keys)
    {
      ghost var start := buckets[..];
      for i := 0 to |keys|
        invariant buckets == old(buckets) && maxSz == old(maxSz) && sz == old(sz) + i
        invariant Consistent()
        invariant buckets[..] == PushAll(hash, start, keys[..i])
      {
        InsertHash(keys[i]);
        assert keys[..i + 1][..i] == keys[..i];
      }
      assert keys[..|keys|] == keys;
    }

    /** Growth: twice the buckets, every key collected bucket by bucket and inserted again. */
    method Resize()
      requires Consistent() && Distinct(Flatten(buckets[..]))
      requires sz <= maxSz
      modifies this
      ensures Consistent() && Distinct(Flatten(buckets[..]))
      ensures fresh(buckets)
      ensures maxSz == 2 * old(maxSz) && sz == old(sz)
      ensures buckets[..] == Rehash(hash, old(buckets[..]))
      ensures multiset(Flatten(buckets[..])) == multiset(Flatten(old(buckets[..])))
      ensures Contents == old(Contents)
    {
      ghost var before := buckets[..];
      var newSz := 2 * maxSz;
      var newBuckets := new seq<Key>[newSz](_ => []);
      var help, ind := CollectKeys();

      buckets := newBuckets;
      maxSz := newSz;
      sz := 0;
      Contents := {};
      FlattenNil(buckets[..]);
      assert buckets[..] == EmptyTable(newSz);

      InsertEach(help[..ind]);
      assert buckets[..] == Rehash(hash, before);
      RehashSound(hash, before);
    }

    /** Grows the table exactly when `100 * (sz / maxSz) > 70`, that is, when `sz >= maxSz`. */
    method CheckLoadFactor()
      requires Consistent() && Distinct(Flatten(buckets[..]))
      requires sz <= maxSz
      modifies this
      ensures Valid()
      ensures sz == old(sz) && Contents == old(Contents)
      ensures old(sz) >= old(maxSz) ==>
                fresh(buckets) && maxSz == 2 * old(maxSz) && buckets[..] == Rehash(hash, old(buckets[..]))
      ensures old(sz) < old(maxSz) ==>
                buckets == old(buckets) && maxSz == old(maxSz) && buckets[..] == old(buckets[..])
    {
      DistinctCard(Flatten(buckets[..]));
      var loadFactor := LoadFactor(sz, maxSz);
      if loadFactor > 70 {
        Resize();
      }
    }

    /** The number of keys stored. */
    function Size(): (r: nat)
      reads this, buckets
      requires Valid()
      ensures r == |Contents|
      ensures r == |Flatten(buckets[..])|
    {
      DistinctCard(Flatten(buckets[..]));
      sz
    }

    /** Whether the set holds no key. */
    function Empty(): (e: bool)
      reads this, buckets
      requires Valid()
      ensures e <==> Contents == {}
      ensures e <==> forall i :: 0 <= i < maxSz ==> buckets[i] == []
    {
      FlattenNil(buckets[..]);
      assert Flatten(buckets[..]) != [] ==> Flatten(buckets[..])[0] in Contents;
      sz == 0
    }

    /** One step of the range insert: skip `v` when `Count(v)` is 1, else chain it in and check the load factor. */
    method InsertKey(v: Key)
      requires Valid()
      modifies this, buckets
      ensures Valid()
      ensures buckets == old(buckets) || fresh(buckets)
      ensures Contents == old(Contents) + {v}
      ensures sz == old(sz) + (if v in old(Contents) then 0 else 1)
      ensures v in old(Contents) ==>
                buckets == old(buckets) && maxSz == old(maxSz) && sz == old(sz) && buckets[..] == old(buckets[..])
      ensures v !in old(Contents) && old(sz) + 1 >= old(maxSz) ==>
                maxSz == 2 * old(maxSz) && buckets[..] == Rehash(hash, Push(hash, old(buckets[..]), v))
      ensures v !in old(Contents) && old(sz) + 1 < old(maxSz) ==>
                buckets == old(buckets) && maxSz == old(maxSz) && buckets[..] == Push(hash, old(buckets[..]), v)
    {
      var c := Count(v);
      if c != 1 {
        InsertHash(v);
        CheckLoadFactor();
      }
    }

    /** Inserts every key of `keys` in order, skipping each already present (earlier ones included). */
    method Insert(keys: seq<Key>)
      requires Valid()
      modifies this, buckets
      ensures Valid()
      ensures buckets == old(buckets) || fresh(buckets)
      ensures Contents == old(Contents) + Members(keys)
      ensures sz == old(sz) + NewCount(old(Contents), keys)
      ensures sz == old(sz) + |Members(keys) - old(Contents)|
      ensures Members(keys) <= old(Contents) ==>
                buckets == old(buckets) && maxSz == old(maxSz) && sz == old(sz) && buckets[..] == old(buckets[..])
    {
      ghost var initial := Contents;
      for i := 0 to |keys|
        invariant Valid()
        invariant buckets == old(buckets) || fresh(buckets)
        invariant Contents == AddAll(initial, keys[..i])
        invariant sz == old(sz) + NewCount(initial, keys[..i])
        invariant NewCount(initial, keys[..i]) == 0 ==>
                    buckets == old(buckets) && maxSz == old(maxSz) && buckets[..] == old(buckets[..])
      {
        assert keys[..i + 1][..i] == keys[..i];
        InsertKey(keys[i]);
      }
      assert keys[..|keys|] == keys;
      AddAllIsUnion(initial, keys);
      NewCountIsCard(initial, keys);
      if Members(keys) <= initial {
        NoNewCount(initial, keys);
      }
    }

    /** 1 when `v` is stored, else 0, found by walking the chain of bucket `hash(v) % maxSz`. */
    method Count(v: Key) returns (n: nat)
      requires Consistent()
      ensures n <= 1
      ensures n == 1 <==> v in buckets[Slot(hash, v, maxSz)]
      ensures n == 1 <==> v in Contents
    {
      var key := hash(v) % maxSz;
      var help := buckets[key];
      while help != []
        invariant |help| <= |buckets[key]|
        invariant help == buckets[key][|buckets[key]| - |help|..]
        invariant v !in buckets[key][..|buckets[key]| - |help|]
      {
        if help[0] == v {
          HashedMember(hash, buckets[..], v);
          return 1;
        }
        help := help[1..];
      }
      assert buckets[key][..|buckets[key]|] == buckets[key];
      HashedMember(hash, buckets[..], v);
      return 0;
    }
  }
}

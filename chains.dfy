/**
 The bucket table of a separate-chaining hash set, as values.

 A table is a sequence of chains, one per bucket; a chain lists its keys newest
 first, as a singly linked list headed by the bucket does. The hash is a
 parameter: the table never looks inside it.
 */
module Chains {

  /** The bucket of `v` in a table of `m` buckets: `hash(v) % m`. */
  function Slot<Key>(hash: Key -> nat, v: Key, m: nat): (k: nat)
    requires m >= 1
    ensures k < m
  {
    hash(v) % m
  }

  /** All keys of a table, bucket 0 first, each chain in its own order. */
  function Flatten<Key>(c: seq<seq<Key>>): seq<Key>
  {
    if |c| == 0 then [] else Flatten(c[..|c| - 1]) + c[|c| - 1]
  }

  /** The set of keys occurring in a sequence. */
  ghost function Members<Key>(s: seq<Key>): set<Key>
  {
    set x | x in s
  }

  /** No key occurs twice. */
  ghost predicate Distinct<Key>(s: seq<Key>)
  {
    forall x | x in s :: multiset(s)[x] == 1
  }

  /** Every key sits in the bucket its hash selects. */
  ghost predicate Hashed<Key>(hash: Key -> nat, c: seq<seq<Key>>)
  {
    |c| >= 1 &&
    forall i, j :: 0 <= i < |c| && 0 <= j < |c[i]| ==> Slot(hash, c[i][j], |c|) == i
  }

  /** A table of `m` empty buckets. */
  function EmptyTable<Key>(m: nat): (c: seq<seq<Key>>)
    ensures |c| == m
    ensures forall i :: 0 <= i < m ==> c[i] == []
  {
    seq(m, _ => [])
  }

  /** One chaining insert: `v` becomes the new head of its bucket. */
  function Push<Key>(hash: Key -> nat, c: seq<seq<Key>>, v: Key): (r: seq<seq<Key>>)
    requires |c| >= 1
    ensures |r| == |c|
  {
    var k := Slot(hash, v, |c|);
    c[k := [v] + c[k]]
  }

  /** Chaining inserts of `ks`, first key first. */
  function PushAll<Key>(hash: Key -> nat, c: seq<seq<Key>>, ks: seq<Key>): (r: seq<seq<Key>>)
    requires |c| >= 1
    ensures |r| == |c|
  {
    if |ks| == 0 then c else Push(hash, PushAll(hash, c, ks[..|ks| - 1]), ks[|ks| - 1])
  }

  /** The table after growth: twice the buckets, every key inserted anew in collection order. */
  function Rehash<Key>(hash: Key -> nat, c: seq<seq<Key>>): (r: seq<seq<Key>>)
    requires |c| >= 1
    ensures |r| == 2 * |c|
  {
    PushAll(hash, EmptyTable(2 * |c|), Flatten(c))
  }

  /** The load factor as the table computes it: `100 * (sz / maxSz)`, integer division first. */
  function LoadFactor(sz: nat, maxSz: nat): (lf: nat)
    requires maxSz >= 1
    ensures sz < maxSz ==> lf == 0
    ensures sz >= maxSz ==> lf >= 100
    ensures lf > 70 <==> sz >= maxSz
  {
    100 * (sz / maxSz)
  }

  // ---------------------------------------------------------------------------
  // Flattening

  /** Flattening one more bucket appends its chain. */
  lemma {:induction false} FlattenLast<Key>(c: seq<seq<Key>>, i: nat)
    requires i < |c|
    ensures Flatten(c[..i + 1]) == Flatten(c[..i]) + c[i]
  {
    assert c[..i + 1][..i] == c[..i];
  }

  /** A key is stored exactly when some bucket's chain holds it. */
  lemma {:induction false} FlattenMember<Key>(c: seq<seq<Key>>, v: Key)
    ensures v in Flatten(c) <==> exists i :: 0 <= i < |c| && v in c[i]
  {
    if |c| > 0 {
      var p := c[..|c| - 1];
      FlattenMember(p, v);
      assert forall i :: 0 <= i < |p| ==> p[i] == c[i];
      if v in c[|c| - 1] {
        assert v in Flatten(c);
      }
    }
  }

  /** The table holds no key exactly when every chain is empty. */
  lemma {:induction false} FlattenNil<Key>(c: seq<seq<Key>>)
    ensures Flatten(c) == [] <==> forall i :: 0 <= i < |c| ==> c[i] == []
  {
    if |c| > 0 {
      var p := c[..|c| - 1];
      FlattenNil(p);
      assert forall i :: 0 <= i < |p| ==> p[i] == c[i];
    }
  }

  /** The first `i` buckets hold no more keys than the whole table. */
  lemma {:induction false} FlattenPrefixShorter<Key>(c: seq<seq<Key>>, i: nat)
    requires i <= |c|
    ensures |Flatten(c[..i])| <= |Flatten(c)|
  {
    if i < |c| {
      var p := c[..|c| - 1];
      assert c[..i] == p[..i];
      FlattenPrefixShorter(p, i);
    } else {
      assert c[..i] == c;
    }
  }

  /** Putting `v` at the head of one chain adds exactly `v` to the stored keys. */
  lemma {:induction false} FlattenPrepend<Key>(c: seq<seq<Key>>, k: nat, v: Key)
    requires k < |c|
    ensures multiset(Flatten(c[k := [v] + c[k]])) == multiset(Flatten(c)) + multiset{v}
  {
    var n := |c| - 1;
    var d := c[k := [v] + c[k]];
    if k == n {
      assert d[..n] == c[..n];
      assert multiset([v] + c[k]) == multiset{v} + multiset(c[k]);
    } else {
      var p := c[..n];
      assert d[..n] == p[k := [v] + p[k]];
      FlattenPrepend(p, k, v);
    }
  }

  // ---------------------------------------------------------------------------
  // Chaining insert

  /** One chaining insert adds exactly its key to the stored keys. */
  lemma PushKeys<Key>(hash: Key -> nat, c: seq<seq<Key>>, v: Key)
    requires |c| >= 1
    ensures multiset(Flatten(Push(hash, c, v))) == multiset(Flatten(c)) + multiset{v}
  {
    FlattenPrepend(c, Slot(hash, v, |c|), v);
  }

  /** One chaining insert keeps every key in its hashed bucket. */
  lemma PushHashed<Key>(hash: Key -> nat, c: seq<seq<Key>>, v: Key)
    requires Hashed(hash, c)
    ensures Hashed(hash, Push(hash, c, v))
  {
  }

  /** A run of chaining inserts adds exactly its keys to the stored keys. */
  lemma {:induction false} PushAllKeys<Key>(hash: Key -> nat, c: seq<seq<Key>>, ks: seq<Key>)
    requires |c| >= 1
    ensures multiset(Flatten(PushAll(hash, c, ks))) == multiset(Flatten(c)) + multiset(ks)
  {
    if |ks| > 0 {
      var p, v := ks[..|ks| - 1], ks[|ks| - 1];
      var q := PushAll(hash, c, p);
      assert PushAll(hash, c, ks) == Push(hash, q, v);
      PushAllKeys(hash, c, p);
      PushKeys(hash, q, v);
      assert ks == p + [v];
      assert multiset(ks) == multiset(p) + multiset{v};
    }
  }

  /** A run of chaining inserts keeps every key in its hashed bucket. */
  lemma {:induction false} PushAllHashed<Key>(hash: Key -> nat, c: seq<seq<Key>>, ks: seq<Key>)
    requires Hashed(hash, c)
    ensures Hashed(hash, PushAll(hash, c, ks))
  {
    if |ks| > 0 {
      PushAllHashed(hash, c, ks[..|ks| - 1]);
      PushHashed(hash, PushAll(hash, c, ks[..|ks| - 1]), ks[|ks| - 1]);
    }
  }

  /** In a hashed table a key is stored exactly when its own bucket holds it. */
  lemma HashedMember<Key>(hash: Key -> nat, c: seq<seq<Key>>, v: Key)
    requires Hashed(hash, c)
    ensures v in Flatten(c) <==> v in c[Slot(hash, v, |c|)]
  {
    FlattenMember(c, v);
    if v in Flatten(c) {
      var i :| 0 <= i < |c| && v in c[i];
      var j :| 0 <= j < |c[i]| && c[i][j] == v;
      assert Slot(hash, c[i][j], |c|) == i;
    }
  }

  // ---------------------------------------------------------------------------
  // Growth

  /** Growth keeps exactly the stored keys, with their multiplicities. */
  lemma RehashKeys<Key>(hash: Key -> nat, c: seq<seq<Key>>)
    requires |c| >= 1
    ensures multiset(Flatten(Rehash(hash, c))) == multiset(Flatten(c))
  {
    var e: seq<seq<Key>> := EmptyTable(2 * |c|);
    FlattenNil(e);
    PushAllKeys(hash, e, Flatten(c));
  }

  /** After growth every key sits in its bucket for the doubled bucket count. */
  lemma RehashHashed<Key>(hash: Key -> nat, c: seq<seq<Key>>)
    requires |c| >= 1
    ensures Hashed(hash, Rehash(hash, c))
  {
    var e: seq<seq<Key>> := EmptyTable(2 * |c|);
    PushAllHashed(hash, e, Flatten(c));
  }

  /** Growth keeps the stored keys, their set and their freedom from repeats, and places every key by its new hash. */
  lemma RehashSound<Key>(hash: Key -> nat, c: seq<seq<Key>>)
    requires |c| >= 1
    ensures Hashed(hash, Rehash(hash, c))
    ensures multiset(Flatten(Rehash(hash, c))) == multiset(Flatten(c))
    ensures Members(Flatten(Rehash(hash, c))) == Members(Flatten(c))
    ensures Distinct(Flatten(Rehash(hash, c))) <==> Distinct(Flatten(c))
  {
    RehashKeys(hash, c);
    RehashHashed(hash, c);
    SameKeys(Flatten(Rehash(hash, c)), Flatten(c));
  }

  /** Growth preserves membership: a key is found in its new bucket exactly when it was found in its old one. */
  lemma RehashFinds<Key>(hash: Key -> nat, c: seq<seq<Key>>, v: Key)
    requires Hashed(hash, c)
    ensures v in Rehash(hash, c)[Slot(hash, v, 2 * |c|)] <==> v in c[Slot(hash, v, |c|)]
  {
    var r := Rehash(hash, c);
    RehashKeys(hash, c);
    RehashHashed(hash, c);
    HashedMember(hash, c, v);
    HashedMember(hash, r, v);
    assert v in Flatten(r) <==> v in multiset(Flatten(r));
    assert v in Flatten(c) <==> v in multiset(Flatten(c));
  }

  // ---------------------------------------------------------------------------
  // Counting keys

  /** Without repeats, the number of distinct keys is the length. */
  lemma {:induction false} DistinctCard<Key>(s: seq<Key>)
    requires Distinct(s)
    ensures |Members(s)| == |s|
  {
    if |s| > 0 {
      var p, v := s[..|s| - 1], s[|s| - 1];
      assert s == p + [v];
      assert multiset(s) == multiset(p) + multiset{v};
      forall x | x in p ensures multiset(p)[x] == 1 {
        assert x in s && multiset(s)[x] == 1;
      }
      assert multiset(s)[v] == 1;
      assert v !in p;
      DistinctCard(p);
      assert Members(s) == Members(p) + {v};
    }
  }

  /** One more key at the end adds it to the keys present. */
  lemma MembersSnoc<Key>(s: seq<Key>, v: Key)
    ensures Members(s + [v]) == Members(s) + {v}
  {
  }

  /** Adding one key to the stored multiset adds it to the stored set; a repeat-free table stays repeat-free when the key is new. */
  lemma AddKey<Key>(s: seq<Key>, t: seq<Key>, v: Key)
    requires multiset(s) == multiset(t) + multiset{v}
    ensures Members(s) == Members(t) + {v}
    ensures Distinct(t) && v !in t ==> Distinct(s)
  {
    forall x ensures x in Members(s) <==> x in Members(t) + {v} {
      assert x in s <==> x in multiset(s);
      assert x in t <==> x in multiset(t);
    }
    if Distinct(t) && v !in t {
      forall x | x in s ensures multiset(s)[x] == 1 {
        assert x in multiset(s);
        if x != v {
          assert x in multiset(t);
        }
      }
    }
  }

  /** Equal stored multisets give equal stored sets and the same repeat-freedom. */
  lemma SameKeys<Key>(s: seq<Key>, t: seq<Key>)
    requires multiset(s) == multiset(t)
    ensures Members(s) == Members(t)
    ensures Distinct(s) <==> Distinct(t)
  {
    forall x ensures x in Members(s) <==> x in Members(t) {
      assert x in s <==> x in multiset(s);
      assert x in t <==> x in multiset(t);
    }
    forall x ensures x in s <==> x in t {
      assert x in s <==> x in multiset(s);
      assert x in t <==> x in multiset(t);
    }
  }

  /** The stored keys after inserting `ks` one by one into a set holding `stored`. */
  ghost function AddAll<Key>(stored: set<Key>, ks: seq<Key>): set<Key>
  {
    if |ks| == 0 then stored else AddAll(stored, ks[..|ks| - 1]) + {ks[|ks| - 1]}
  }

  /** How many keys of `ks` are new when inserted one by one: absent from `stored` and from every earlier key. */
  ghost function NewCount<Key>(stored: set<Key>, ks: seq<Key>): nat
  {
    if |ks| == 0 then 0
    else
      var p := ks[..|ks| - 1];
      NewCount(stored, p) + (if ks[|ks| - 1] in AddAll(stored, p) then 0 else 1)
  }

  /** Inserting a range one key at a time stores exactly the union. */
  lemma {:induction false} AddAllIsUnion<Key>(stored: set<Key>, ks: seq<Key>)
    ensures AddAll(stored, ks) == stored + Members(ks)
  {
    if |ks| > 0 {
      var p, v := ks[..|ks| - 1], ks[|ks| - 1];
      AddAllIsUnion(stored, p);
      assert ks == p + [v];
      MembersSnoc(p, v);
    }
  }

  /** The new keys of a range are exactly its distinct keys that were not stored. */
  lemma {:induction false} NewCountIsCard<Key>(stored: set<Key>, ks: seq<Key>)
    ensures NewCount(stored, ks) == |Members(ks) - stored|
  {
    if |ks| > 0 {
      var p, v := ks[..|ks| - 1], ks[|ks| - 1];
      NewCountIsCard(stored, p);
      AddAllIsUnion(stored, p);
      assert ks == p + [v];
      MembersSnoc(p, v);
      if v in AddAll(stored, p) {
        assert Members(ks) - stored == Members(p) - stored;
      } else {
        assert Members(ks) - stored == (Members(p) - stored) + {v};
      }
    }
  }

  /** A range whose keys are all stored brings no new key and leaves the stored keys as they are. */
  lemma {:induction false} NoNewCount<Key>(stored: set<Key>, ks: seq<Key>)
    requires forall x :: x in ks ==> x in stored
    ensures NewCount(stored, ks) == 0 && AddAll(stored, ks) == stored
  {
    if |ks| > 0 {
      NoNewCount(stored, ks[..|ks| - 1]);
    }
  }
}

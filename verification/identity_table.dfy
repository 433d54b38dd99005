/**
  The two-map identity table of the identity-placeholder strategy:
  `ids` (a HashMap from surrogate key to object) and `objects` (an
  IdentityHashMap from object back to key). Objects are values of the type
  parameter `O`; Dafny equality on `O` stands for Java's reference `==`, so two
  distinct instances with equal fields are two different values of `O`.
 */
module IdentityTable {
  import opened Wrappers
  import opened JavaInt

  datatype Table<O(==)> = Table(ids: map<Int32, O>, objects: map<O, Int32>)

  /** `ids.size()`: the HashMap's `int` entry counter, which is the entry
      count itself while that fits in an `int`. */
  function Size<O>(ids: map<Int32, O>): (r: Int32)
    ensures |ids| < TWO_31 ==> r as int == |ids|
  {
    Wrap(|ids|)
  }

  /** The keys of `ids` are exactly 0 .. |ids|-1, so the key `ids.size()` is not yet taken. */
  ghost predicate Dense<O>(ids: map<Int32, O>)
  {
    forall k: Int32 :: k in ids <==> 0 <= k as int < |ids|
  }

  /** `objects` is the exact inverse of `ids`. */
  ghost predicate Inverse<O>(ids: map<Int32, O>, objects: map<O, Int32>)
  {
    && (forall k :: k in ids ==> ids[k] in objects && objects[ids[k]] == k)
    && (forall o :: o in objects ==> objects[o] in ids && ids[objects[o]] == o)
  }

  /** No object is stored under two keys. */
  ghost predicate Injective<O>(m: map<Int32, O>)
  {
    forall k, k' :: k in m && k' in m && m[k] == m[k'] ==> k == k'
  }

  /** The table invariant that keeps allocation collision-free. */
  ghost predicate Valid<O>(t: Table<O>)
  {
    Dense(t.ids) && Inverse(t.ids, t.objects)
  }

  /** Every entry of `t` is still present, unchanged, in `t'`. */
  ghost predicate Extends<O>(t: Table<O>, t': Table<O>)
  {
    && (forall k :: k in t.ids ==> k in t'.ids && t'.ids[k] == t.ids[k])
    && (forall o :: o in t.objects ==> o in t'.objects && t'.objects[o] == t.objects[o])
  }

  /** The constructor: `new HashMap<>()` and `new IdentityHashMap<>()`. */
  function Empty<O(==)>(): (t: Table<O>)
    ensures Valid(t)
    ensures |t.ids| == 0 && |t.objects| == 0
  {
    Table(map[], map[])
  }

  /** `ids.get(key)`: `None` stands for the `null` of a missing key. On a
      valid table the object found is one that `write`/`marshal` would encode
      as this very key. */
  function Lookup<O(==)>(t: Table<O>, key: Int32): (r: Option<O>)
    ensures r.Some? <==> key in t.ids
    ensures r.Some? ==> r.value == t.ids[key]
    ensures Valid(t) && r.Some? ==> r.value in t.objects && t.objects[r.value] == key
  {
    if key in t.ids then Some(t.ids[key]) else None
  }

  /** The key lookup-or-allocation shared by `write` and `marshal`: the key
      already recorded for `o`, or else `ids.size()`, entered in both maps. */
  function AssignOrGet<O(==)>(t: Table<O>, o: O): (r: (Table<O>, Int32))
    ensures o in r.0.objects && r.0.objects[o] == r.1
    ensures o !in t.objects ==> r.1 in r.0.ids && r.0.ids[r.1] == o
  {
    if o in t.objects then
      (t, t.objects[o])
    else
      var key := Size(t.ids);
      (Table(t.ids[key := o], t.objects[o := key]), key)
  }

  /** Presenting the same object again returns the same key and changes
      neither map. */
  lemma AssignTwice<O>(t: Table<O>, o: O)
    ensures var (t1, k1) := AssignOrGet(t, o);
            AssignOrGet(t1, o) == (t1, k1)
    ensures o in t.objects ==> AssignOrGet(t, o) == (t, t.objects[o])
  {
  }

  /** A first-seen object gets the key `|ids|`; on a dense table nothing is
      overwritten, `ids` grows by exactly one entry and every other entry of
      both maps is kept. */
  lemma AssignFresh<O>(t: Table<O>, o: O)
    requires o !in t.objects
    requires |t.ids| < TWO_31
    ensures var (t1, key) := AssignOrGet(t, o);
            && key as int == |t.ids|
            && Lookup(t1, key) == Some(o)
            && t1.objects[o] == key
            && (Dense(t.ids) ==> |t1.ids| == |t.ids| + 1 && Extends(t, t1))
  {
    var (t1, key) := AssignOrGet(t, o);
    if Dense(t.ids) {
      assert key !in t.ids;
    }
  }

  /** `write`/`marshal` preserve the table invariant, and the returned key
      looks up the presented object. */
  lemma AssignPreservesValid<O>(t: Table<O>, o: O)
    requires Valid(t)
    requires o in t.objects || |t.ids| < TWO_31
    ensures var (t1, key) := AssignOrGet(t, o);
            && Valid(t1)
            && Extends(t, t1)
            && Lookup(t1, key) == Some(o)
            && |t1.ids| <= |t.ids| + 1
            && (forall p :: p in t1.objects <==> p in t.objects || p == o)
  {
    if o !in t.objects {
      var (t1, key) := AssignOrGet(t, o);
      assert key as int == |t.ids|;
      assert key !in t.ids;
      assert |t1.ids| == |t.ids| + 1;
      forall k: Int32
        ensures k in t1.ids <==> 0 <= k as int < |t1.ids|
      {
        assert k in t1.ids <==> k in t.ids || k == key;
      }
      forall p | p in t1.objects
        ensures t1.objects[p] in t1.ids && t1.ids[t1.objects[p]] == p
      {
        if p != o {
          assert t1.objects[p] == t.objects[p] != key;
        }
      }
    }
  }

  /** The hazard of a table whose keys are not 0 .. |ids|-1: when `ids.size()`
      is already a key, allocating it for a new object overwrites the entry,
      `ids` does not grow, and the displaced object's reverse entry now points
      at the new object. */
  lemma SparseAllocationCollides<O>(t: Table<O>, o: O)
    requires o !in t.objects
    requires Size(t.ids) in t.ids
    requires Inverse(t.ids, t.objects)
    ensures var (t1, key) := AssignOrGet(t, o);
            var displaced := t.ids[key];
            && |t1.ids| == |t.ids|
            && Lookup(t1, key) == Some(o)
            && displaced != o
            && displaced in t1.objects && t1.objects[displaced] == key
            && !Inverse(t1.ids, t1.objects)
  {
    var (t1, key) := AssignOrGet(t, o);
    var displaced := t.ids[key];
    assert displaced in t.objects;
    assert t1.ids.Keys == t.ids.Keys;
  }

  /** Presenting a sequence of objects in order: the final table and the key
      returned for each presentation. */
  function AssignAll<O(==)>(t: Table<O>, os: seq<O>): (r: (Table<O>, seq<Int32>))
    ensures |r.1| == |os|
    decreases |os|
  {
    if os == [] then
      (t, [])
    else
      var (t1, key) := AssignOrGet(t, os[0]);
      var (t2, keys) := AssignAll(t1, os[1..]);
      (t2, [key] + keys)
  }

  /** Over a run of presentations the invariant holds throughout, every
      returned key still looks up the object it was returned for, and only the
      presented objects gain keys. */
  lemma {:induction false} AssignAllValid<O>(t: Table<O>, os: seq<O>)
    requires Valid(t)
    requires |t.ids| + |os| <= TWO_31
    ensures var (t', keys) := AssignAll(t, os);
            && Valid(t')
            && Extends(t, t')
            && |t'.ids| <= |t.ids| + |os|
            && (forall i :: 0 <= i < |os| ==> Lookup(t', keys[i]) == Some(os[i]))
            && (forall p :: p in t'.objects <==> p in t.objects || p in os)
    decreases |os|
  {
    if os != [] {
      var (t1, key) := AssignOrGet(t, os[0]);
      AssignPreservesValid(t, os[0]);
      AssignAllValid(t1, os[1..]);
      var (t', keys') := AssignAll(t1, os[1..]);
      assert AssignAll(t, os) == (t', [key] + keys');
      ExtendsTransitive(t, t1, t');
      forall i | 0 <= i < |os|
        ensures Lookup(t', ([key] + keys')[i]) == Some(os[i])
      {
        if i > 0 {
          assert os[i] == os[1..][i - 1];
          assert ([key] + keys')[i] == keys'[i - 1];
        }
      }
      forall p
        ensures p in t'.objects <==> p in t.objects || p in os
      {
        assert p in os <==> p == os[0] || p in os[1..];
      }
    }
  }

  lemma ExtendsTransitive<O>(t: Table<O>, t1: Table<O>, t2: Table<O>)
    requires Extends(t, t1) && Extends(t1, t2)
    ensures Extends(t, t2)
  {
  }

  /** Objects never seen before receive consecutive keys starting at the
      table's size, in presentation order. */
  lemma {:induction false} FreshKeysConsecutive<O>(t: Table<O>, os: seq<O>)
    requires Valid(t)
    requires |t.ids| + |os| <= TWO_31
    requires forall i, j :: 0 <= i < j < |os| ==> os[i] != os[j]
    requires forall i :: 0 <= i < |os| ==> os[i] !in t.objects
    ensures var (t', keys) := AssignAll(t, os);
            && |t'.ids| == |t.ids| + |os|
            && (forall i :: 0 <= i < |os| ==> keys[i] as int == |t.ids| + i)
    decreases |os|
  {
    if os != [] {
      var (t1, key) := AssignOrGet(t, os[0]);
      AssignFresh(t, os[0]);
      AssignPreservesValid(t, os[0]);
      forall i | 0 <= i < |os[1..]|
        ensures os[1..][i] !in t1.objects
      {
        assert os[1..][i] == os[i + 1] != os[0];
      }
      FreshKeysConsecutive(t1, os[1..]);
    }
  }

  /** From the constructor's empty tables, N distinct objects receive the keys
      0, 1, ..., N-1 in presentation order. */
  lemma DistinctObjectsGetSequentialKeys<O>(os: seq<O>)
    requires |os| <= TWO_31
    requires forall i, j :: 0 <= i < j < |os| ==> os[i] != os[j]
    ensures var (t', keys) := AssignAll(Empty(), os);
            && Valid(t')
            && |t'.ids| == |os|
            && (forall i :: 0 <= i < |os| ==> keys[i] as int == i)
  {
    AssignAllValid(Empty<O>(), os);
    FreshKeysConsecutive(Empty<O>(), os);
  }

  /** Identity deduplication: two presentations get the same key exactly when
      they present the same object (reference), whatever else they share. */
  lemma SameKeyIffSameObject<O>(t: Table<O>, os: seq<O>, i: nat, j: nat)
    requires Valid(t)
    requires |t.ids| + |os| <= TWO_31
    requires i < |os| && j < |os|
    ensures var keys := AssignAll(t, os).1;
            keys[i] == keys[j] <==> os[i] == os[j]
  {
    AssignAllValid(t, os);
    var (t', keys) := AssignAll(t, os);
    assert Lookup(t', keys[i]) == Some(os[i]);
    assert Lookup(t', keys[j]) == Some(os[j]);
  }

  /** `keys` lists every key of `m` exactly once: an iteration order of
      `m.entrySet()`. */
  ghost predicate Enumerates(order: seq<Int32>, keys: set<Int32>)
  {
    && (forall i, j :: 0 <= i < j < |order| ==> order[i] != order[j])
    && (forall k :: k in order <==> k in keys)
  }

  /** The reverse map `setIds` rebuilds: `objects.put(value, key)` for each
      entry of `m` in iteration order `order`, the last put for an object
      winning. */
  function Reverse<O(==)>(m: map<Int32, O>, order: seq<Int32>): (r: map<O, Int32>)
    requires forall i :: 0 <= i < |order| ==> order[i] in m
    ensures forall o :: o in r ==> r[o] in order && r[o] in m && m[r[o]] == o
    ensures forall i :: 0 <= i < |order| ==> m[order[i]] in r
    decreases |order|
  {
    if order == [] then
      map[]
    else
      var key := order[|order| - 1];
      Reverse(m, order[..|order| - 1])[m[key] := key]
  }

  /** `setIds(m)`: `m` becomes the forward map, the reverse map is cleared and
      rebuilt from `m`'s entries visited in `order`. */
  function SetIds<O(==)>(t: Table<O>, m: map<Int32, O>, order: seq<Int32>): (r: Table<O>)
    requires Enumerates(order, m.Keys)
    ensures r.ids == m
    ensures r.objects.Keys == m.Values
    ensures forall o :: o in r.objects ==> r.objects[o] in m && m[r.objects[o]] == o
  {
    var objects := Reverse(m, order);
    forall o | o in m.Values
      ensures o in objects
    {
      var k :| k in m && m[k] == o;
      assert k in order;
      var i :| 0 <= i < |order| && order[i] == k;
    }
    Table(m, objects)
  }

  /** `getIds()`: the forward map. On a valid table it is a map the
      map-taking constructor and `setIds` accept without the collision hazard
      (see `RestoreFromGetIds`). */
  function GetIds<O(==)>(t: Table<O>): (r: map<Int32, O>)
    ensures Valid(t) ==> Dense(r) && Injective(r)
  {
    t.ids
  }

  /** The constructor taking a map: empty tables, then `setIds(m)`. Handed a
      map whose keys are 0 .. |m|-1 with no object twice, it satisfies the
      invariant; `RestoreFromGetIds` shows it rebuilds exactly the table the
      map was taken from. */
  function WithIds<O(==)>(m: map<Int32, O>, order: seq<Int32>): (r: Table<O>)
    requires Enumerates(order, m.Keys)
    ensures r.ids == m
    ensures Dense(m) && Injective(m) ==> Valid(r)
  {
    SetIdsValidIff(Empty(), m, order);
    SetIds(Empty(), m, order)
  }

  /** Rehydration fidelity: after `setIds(m)`, `getIds()` is `m`, every key
      looks up `m`'s entry or nothing, and no entry of the previous table
      survives. */
  lemma SetThenGet<O>(t: Table<O>, m: map<Int32, O>, order: seq<Int32>)
    requires Enumerates(order, m.Keys)
    ensures GetIds(SetIds(t, m, order)) == m
    ensures forall k :: Lookup(SetIds(t, m, order), k) == (if k in m then Some(m[k]) else None)
    ensures forall o :: o in SetIds(t, m, order).objects ==> o in m.Values
  {
  }

  /** With an injective map the rebuilt reverse map is its exact inverse. */
  lemma SetIdsInverse<O>(t: Table<O>, m: map<Int32, O>, order: seq<Int32>)
    requires Enumerates(order, m.Keys)
    requires Injective(m)
    ensures Inverse(m, SetIds(t, m, order).objects)
  {
    var r := SetIds(t, m, order);
    forall k | k in m
      ensures m[k] in r.objects && r.objects[m[k]] == k
    {
      assert m[k] in m.Values;
      var k' := r.objects[m[k]];
      assert k' in m && m[k'] == m[k];
    }
  }

  /** With an injective map the iteration order `setIds` visits the entries in
      does not matter. */
  lemma SetIdsOrderIrrelevant<O>(t: Table<O>, m: map<Int32, O>, order: seq<Int32>, order': seq<Int32>)
    requires Enumerates(order, m.Keys) && Enumerates(order', m.Keys)
    requires Injective(m)
    ensures SetIds(t, m, order') == SetIds(t, m, order)
  {
    var r, r' := SetIds(t, m, order), SetIds(t, m, order');
    assert r'.objects.Keys == r.objects.Keys;
    forall o | o in r.objects
      ensures r'.objects[o] == r.objects[o]
    {
      var k, k' := r.objects[o], r'.objects[o];
      assert k in m && k' in m && m[k] == o == m[k'];
    }
    assert r'.objects == r.objects;
  }

  /** `setIds(m)` leaves a table satisfying the invariant exactly when `m`'s
      keys are 0 .. |m|-1 and no object appears under two keys. */
  lemma SetIdsValidIff<O>(t: Table<O>, m: map<Int32, O>, order: seq<Int32>)
    requires Enumerates(order, m.Keys)
    ensures Valid(SetIds(t, m, order)) <==> Dense(m) && Injective(m)
  {
    var r := SetIds(t, m, order);
    if Dense(m) && Injective(m) {
      SetIdsInverse(t, m, order);
    }
    if Valid(r) {
      forall k, k' | k in m && k' in m && m[k] == m[k']
        ensures k == k'
      {
        assert r.objects[m[k]] == k;
      }
    }
  }

  /** A map has at most one exact inverse. */
  lemma InverseUnique<O>(ids: map<Int32, O>, objects: map<O, Int32>, objects': map<O, Int32>)
    requires Inverse(ids, objects) && Inverse(ids, objects')
    ensures objects == objects'
  {
    forall o | o in objects
      ensures o in objects' && objects'[o] == objects[o]
    {
      var k := objects[o];
      assert k in ids && ids[k] == o;
    }
    forall o | o in objects'
      ensures o in objects
    {
      assert ids[objects'[o]] == o;
    }
  }

  /** Persisting and restoring the table: the map-taking constructor, handed
      `getIds()` of a valid table, rebuilds that very table, whatever order the
      HashMap iterates its entries in. */
  lemma RestoreFromGetIds<O>(t: Table<O>, order: seq<Int32>)
    requires Valid(t)
    requires Enumerates(order, t.ids.Keys)
    ensures WithIds(GetIds(t), order) == t
  {
    var r := SetIds(Empty(), t.ids, order);
    SetIdsInverse(Empty(), t.ids, order);
    InverseUnique(t.ids, r.objects, t.objects);
    assert WithIds(t.ids, order) == r;
  }
}

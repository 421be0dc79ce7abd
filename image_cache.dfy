/** The bounded texture cache: a map from path to texture handle and a
    recency list of paths, oldest first. Insertion evicts from the front
    of the recency list; a hit moves the path to its back. */
module Cache {
  import opened Common

  /** Every cached key has (at least) one entry in the recency list. The
      converse does not hold: re-inserting a key appends a second entry,
      and evicting one copy leaves the other behind. */
  ghost predicate Covered<K, T>(m: map<K, T>, order: seq<K>) {
    forall k :: k in m ==> k in order
  }

  /** The size the cache never exceeds: max, or one entry when max is 0. */
  ghost predicate Bounded<K, T>(m: map<K, T>, max: nat) {
    |m| <= max || |m| <= 1
  }

  /** The eviction loop of insert: while the map holds max entries or more
      and the recency list is not empty, drop the front of the list and
      that key from the map. */
  function Evict<K, T>(m: map<K, T>, order: seq<K>, max: nat): (r: (map<K, T>, seq<K>))
    ensures |r.1| <= |order|
    decreases |order|
  {
    if |m| >= max && |order| > 0 then Evict(m - {order[0]}, order[1..], max) else (m, order)
  }

  /** Eviction consumes a prefix of the recency list (oldest first) and
      stops once the map is below max or the list is exhausted. */
  lemma {:induction false} EvictConsumesPrefix<K, T>(m: map<K, T>, order: seq<K>, max: nat)
    ensures var r := Evict(m, order, max);
            r.1 == order[|order| - |r.1|..] && (|r.0| < max || r.1 == [])
    decreases |order|
  {
    if |m| >= max && |order| > 0 {
      EvictConsumesPrefix(m - {order[0]}, order[1..], max);
    }
  }

  /** A key leaves the map exactly when it is one of the consumed entries;
      the handles of the others are untouched, and every remaining key
      stays listed. */
  lemma {:induction false} EvictProperties<K, T>(m: map<K, T>, order: seq<K>, max: nat)
    ensures var r := Evict(m, order, max);
            && r.0.Keys <= m.Keys && (forall k :: k in r.0 ==> r.0[k] == m[k])
            && (forall k :: k in m ==> (k in r.0 <==> k !in order[..|order| - |r.1|]))
            && (Covered(m, order) ==> Covered(r.0, r.1))
    decreases |order|
  {
    if |m| >= max && |order| > 0 {
      var r := Evict(m, order, max);
      EvictProperties(m - {order[0]}, order[1..], max);
      EvictConsumesPrefix(m - {order[0]}, order[1..], max);
      var n := |order| - |r.1|;
      assert order[..n] == [order[0]] + order[1..][..n - 1];
    }
  }

  /** The map after removing the given keys one after another. */
  function DropKeys<K, T>(m: map<K, T>, keys: seq<K>): map<K, T>
    decreases |keys|
  {
    if keys == [] then m else DropKeys(m - {keys[0]}, keys[1..])
  }

  /** Eviction is exactly the removal of the consumed prefix. */
  lemma {:induction false} EvictDropsPrefix<K, T>(m: map<K, T>, order: seq<K>, max: nat)
    ensures var r := Evict(m, order, max);
            r.0 == DropKeys(m, order[..|order| - |r.1|])
    decreases |order|
  {
    var r := Evict(m, order, max);
    var consumed := |order| - |r.1|;
    if |m| >= max && |order| > 0 {
      EvictDropsPrefix(m - {order[0]}, order[1..], max);
      assert order[..consumed][1..] == order[1..][..consumed - 1];
    } else {
      assert order[..0] == [];
    }
  }

  /** Every single removal happened while the map still held max entries
      or more: the loop never evicts from a map below its bound. */
  lemma {:induction false} EvictOnlyWhileFull<K, T>(m: map<K, T>, order: seq<K>, max: nat)
    ensures var r := Evict(m, order, max);
            forall n :: 0 <= n < |order| - |r.1| ==> |DropKeys(m, order[..n])| >= max
    decreases |order|
  {
    var r := Evict(m, order, max);
    var consumed := |order| - |r.1|;
    if |m| >= max && |order| > 0 {
      EvictOnlyWhileFull(m - {order[0]}, order[1..], max);
      forall n | 0 <= n < consumed ensures |DropKeys(m, order[..n])| >= max {
        if n > 0 {
          assert order[..n][1..] == order[1..][..n - 1];
        } else {
          assert order[..0] == [];
        }
      }
    }
  }

  /** ImageCache::insert on the state (textures, access_order, max). */
  function InsertState<K, T>(m: map<K, T>, order: seq<K>, max: nat, path: K, texture: T): (r: (map<K, T>, seq<K>))
    ensures path in r.0 && r.0[path] == texture
    ensures |r.1| > 0 && r.1[|r.1| - 1] == path && |r.1| <= |order| + 1
  {
    var e := Evict(m, order, max);
    (e.0[path := texture], e.1 + [path])
  }

  /** Insert keeps every cached key listed and keeps the size bound: at most
      max entries, or a single entry when max is 0 (the eviction loop stops
      once the recency list is empty). */
  lemma InsertKeepsInvariant<K, T>(m: map<K, T>, order: seq<K>, max: nat, path: K, texture: T)
    requires Covered(m, order)
    ensures var r := InsertState(m, order, max, path, texture);
            Covered(r.0, r.1) && Bounded(r.0, max)
            && (max >= 1 ==> |r.0| <= max) && (max == 0 ==> |r.0| == 1)
  {
    var e := Evict(m, order, max);
    EvictConsumesPrefix(m, order, max);
    EvictProperties(m, order, max);
    if e.1 == [] {
      assert forall k :: k !in e.0;
      assert e.0 == map[];
    }
  }

  /** The promotion done by get: the first occurrence of path leaves its
      place and goes to the back; a path not listed changes nothing. */
  function Promote<K(==)>(order: seq<K>, path: K): (r: seq<K>)
    ensures path in order ==> |r| == |order| && r[|r| - 1] == path
    ensures multiset(r) == multiset(order)
    ensures path !in order ==> r == order
  {
    match Position(order, path)
    case None => order
    case Some(i) =>
      assert order == order[..i] + [order[i]] + order[i + 1..];
      order[..i] + order[i + 1..] + [order[i]]
  }

  /** The recency list with every entry for path removed. */
  function Without<K(==)>(order: seq<K>, path: K): (r: seq<K>)
  {
    if order == [] then []
    else (if order[0] == path then [] else [order[0]]) + Without(order[1..], path)
  }

  lemma {:induction false} WithoutAppend<K>(a: seq<K>, b: seq<K>, path: K)
    ensures Without(a + b, path) == Without(a, path) + Without(b, path)
  {
    if a == [] {
      assert a + b == b;
    } else {
      assert (a + b)[1..] == a[1..] + b;
      WithoutAppend(a[1..], b, path);
    }
  }

  /** Promotion keeps the relative order of every other path. */
  lemma PromoteKeepsOthers<K>(order: seq<K>, path: K)
    ensures Without(Promote(order, path), path) == Without(order, path)
  {
    match Position(order, path)
    case None =>
    case Some(i) =>
      assert order == order[..i] + ([order[i]] + order[i + 1..]);
      WithoutAppend(order[..i], [order[i]] + order[i + 1..], path);
      WithoutAppend([order[i]], order[i + 1..], path);
      WithoutAppend(order[..i] + order[i + 1..], [order[i]], path);
      WithoutAppend(order[..i], order[i + 1..], path);
  }

  /** Exactly the first entry for path moves: entries before it stay in
      place, entries after it shift one place forward, and path goes last.
      With duplicate entries this decides which copy moves. */
  lemma PromoteMovesFirst<K>(order: seq<K>, path: K, i: nat)
    requires Position(order, path) == Some(i)
    ensures var r := Promote(order, path);
            && |r| == |order| && r[|r| - 1] == path
            && forall k :: 0 <= k < |order| - 1 ==> r[k] == (if k < i then order[k] else order[k + 1])
  {
  }

  /** Promotion keeps every cached key listed. */
  lemma PromotePreservesCovered<K, T>(m: map<K, T>, order: seq<K>, path: K)
    requires Covered(m, order)
    ensures Covered(m, Promote(order, path))
  {
    forall k | k in m ensures k in Promote(order, path) {
      assert k in multiset(order);
    }
  }

  /** A run of inserts, oldest first. */
  function InsertAll<K, T>(m: map<K, T>, order: seq<K>, max: nat, items: seq<(K, T)>): (r: (map<K, T>, seq<K>))
    ensures |r.1| <= |order| + |items|
    decreases |items|
  {
    if items == [] then (m, order)
    else
      var s := InsertState(m, order, max, items[0].0, items[0].1);
      InsertAll(s.0, s.1, max, items[1..])
  }

  /** A run of inserts keeps every cached key listed and keeps the size
      bound. */
  lemma {:induction false} InsertAllKeepsInvariant<K, T>(m: map<K, T>, order: seq<K>, max: nat, items: seq<(K, T)>)
    requires Covered(m, order) && Bounded(m, max)
    ensures var r := InsertAll(m, order, max, items);
            Covered(r.0, r.1) && Bounded(r.0, max)
    decreases |items|
  {
    if items != [] {
      InsertKeepsInvariant(m, order, max, items[0].0, items[0].1);
      var s := InsertState(m, order, max, items[0].0, items[0].1);
      InsertAllKeepsInvariant(s.0, s.1, max, items[1..]);
    }
  }

  /** After a run of inserts the last item is cached under its path and is
      the most recent entry. */
  lemma {:induction false} InsertAllStoresLast<K, T>(m: map<K, T>, order: seq<K>, max: nat, items: seq<(K, T)>)
    requires items != []
    ensures var r := InsertAll(m, order, max, items);
            var last := items[|items| - 1];
            last.0 in r.0 && r.0[last.0] == last.1 && |r.1| > 0 && r.1[|r.1| - 1] == last.0
    decreases |items|
  {
    var s := InsertState(m, order, max, items[0].0, items[0].1);
    if |items| == 1 {
      assert items[1..] == [];
    } else {
      InsertAllStoresLast(s.0, s.1, max, items[1..]);
    }
  }

  /** One insert into a cache that is below its bound: nothing is evicted. */
  lemma InsertBelowBound<K, T>(m: map<K, T>, order: seq<K>, max: nat, path: K, texture: T)
    requires |m| < max
    ensures InsertState(m, order, max, path, texture).0 == m[path := texture]
    ensures InsertState(m, order, max, path, texture).1 == order + [path]
  {
  }

  /** With max = 2, inserting A, B, C evicts A and keeps B and C. */
  lemma EvictsOldestScenario()
    ensures InsertAll(map[], [], 2, [('A', 10), ('B', 20), ('C', 30)]).0 == map['B' := 20, 'C' := 30]
    ensures InsertAll(map[], [], 2, [('A', 10), ('B', 20), ('C', 30)]).1 == ['B', 'C']
  {
    var items := [('A', 10), ('B', 20), ('C', 30)];
    var m0: map<char, int> := map[];
    InsertBelowBound(m0, [], 2, 'A', 10);
    var m1 := map['A' := 10];
    assert InsertAll(m0, [], 2, items) == InsertAll(m1, ['A'], 2, items[1..]);
    assert |m1| == 1;
    InsertBelowBound(m1, ['A'], 2, 'B', 20);
    var m2 := map['A' := 10, 'B' := 20];
    assert m1['B' := 20] == m2;
    assert items[1..][1..] == [('C', 30)];
    assert InsertAll(m1, ['A'], 2, items[1..]) == InsertAll(m2, ['A', 'B'], 2, [('C', 30)]);
    var m := map['B' := 20];
    assert m2 - {'A'} == m by {
      assert (m2 - {'A'}).Keys == {'B'};
    }
    assert |m2| == 2;
    assert Evict(m2, ['A', 'B'], 2) == Evict(m, ['B'], 2) by {
      assert ['A', 'B'][1..] == ['B'];
    }
    assert |m| == 1;
    assert Evict(m, ['B'], 2) == (m, ['B']);
    var m3 := map['B' := 20, 'C' := 30];
    assert m['C' := 30] == m3;
    var s3 := InsertState(m2, ['A', 'B'], 2, 'C', 30);
    assert s3.0 == m3 && s3.1 == ['B', 'C'];
    assert InsertAll(m2, ['A', 'B'], 2, [('C', 30)]) == InsertAll(m3, ['B', 'C'], 2, []);
  }

  /** Re-inserting a cached key appends a second recency entry, exactly as
      the source does: the map holds one entry but the list holds two. */
  lemma ReinsertDuplicatesEntry()
    ensures var s1 := InsertState(map[], [], 3, 'A', 10);
            var s2 := InsertState(s1.0, s1.1, 3, 'A', 20);
            s2.0 == map['A' := 20] && s2.1 == ['A', 'A']
  {
    var s0: (map<char, int>, seq<char>) := (map[], []);
    assert Evict(s0.0, s0.1, 3) == s0;
    var s1 := InsertState(s0.0, s0.1, 3, 'A', 10);
    assert s1.1 == ['A'];
    assert s1.0 == map['A' := 10];
    assert Evict(s1.0, s1.1, 3) == s1;
    var s2 := InsertState(s1.0, s1.1, 3, 'A', 20);
    assert s2.1 == ['A', 'A'];
    assert s2.0 == map['A' := 20];
  }

  class ImageCache<K(==), T> {
    var textures: map<K, T>
    var maxCacheSize: nat
    var accessOrder: seq<K>

    ghost predicate Valid()
      reads this
    {
      Covered(textures, accessOrder) && Bounded(textures, maxCacheSize)
    }

    /** ImageCache::new: empty map and recency list. */
    constructor (maxSize: nat)
      ensures Valid()
      ensures textures == map[] && accessOrder == [] && maxCacheSize == maxSize
    {
      textures := map[];
      maxCacheSize := maxSize;
      accessOrder := [];
    }

    /** ImageCache::get: on a hit, return the handle and promote the path;
        on a miss, change nothing. */
    method Get(path: K) returns (r: Option<T>)
      requires Valid()
      modifies this
      ensures Valid()
      ensures textures == old(textures) && maxCacheSize == old(maxCacheSize)
      ensures path in textures ==> r == Some(textures[path]) && accessOrder == Promote(old(accessOrder), path)
      ensures path !in textures ==> r == None && accessOrder == old(accessOrder)
    {
      if path in textures {
        var texture := textures[path];
        match Position(accessOrder, path) {
          case Some(pos) =>
            var p := accessOrder[pos];
            accessOrder := accessOrder[..pos] + accessOrder[pos + 1..];
            accessOrder := accessOrder + [p];
          case None =>
        }
        PromotePreservesCovered(textures, old(accessOrder), path);
        r := Some(texture);
      } else {
        r := None;
      }
    }

    /** ImageCache::insert: evict from the front while full, then store the
        handle and append the path. */
    method Insert(path: K, texture: T)
      requires Valid()
      modifies this
      ensures Valid()
      ensures (textures, accessOrder) == InsertState(old(textures), old(accessOrder), maxCacheSize, path, texture)
      ensures maxCacheSize == old(maxCacheSize)
    {
      InsertKeepsInvariant(textures, accessOrder, maxCacheSize, path, texture);
      while |textures| >= maxCacheSize && |accessOrder| > 0
        invariant maxCacheSize == old(maxCacheSize)
        invariant Evict(textures, accessOrder, maxCacheSize) == Evict(old(textures), old(accessOrder), maxCacheSize)
        decreases |accessOrder|
      {
        var oldest := accessOrder[0];
        accessOrder := accessOrder[1..];
        textures := textures - {oldest};
      }
      textures := textures[path := texture];
      accessOrder := accessOrder + [path];
    }

    /** ImageCache::clear. */
    method Clear()
      requires Valid()
      modifies this
      ensures Valid()
      ensures textures == map[] && accessOrder == [] && maxCacheSize == old(maxCacheSize)
    {
      textures := map[];
      accessOrder := [];
    }

    /** ImageCache::contains: a membership test without promotion. */
    function Contains(path: K): (b: bool)
      reads this
      ensures b <==> path in textures
    {
      path in textures
    }
  }
}

/**
 * The holotree metadata cache: parsed roots and their modification times keyed by path, with an
 * access order (most recently used first) that bounds the cache by evicting from the back. The
 * file system is not part of this model: GetOrLoad's stat result is a parameter, and loading a
 * root is the caller's business (Store records what it loaded).
 */
module Cache {
  import opened Wrappers

  const DefaultCacheMaxEntries: nat := 100

  ghost predicate NoDuplicates(s: seq<string>)
  {
    forall i, j :: 0 <= i < j < |s| ==> s[i] != s[j]
  }

  ghost function Elems(s: seq<string>): set<string>
  {
    set p | p in s
  }

  /** Index of the first occurrence of x, or -1. */
  function FirstIndex(s: seq<string>, x: string): (i: int)
    ensures -1 <= i < |s|
    ensures i >= 0 ==> s[i] == x && forall j :: 0 <= j < i ==> s[j] != x
    ensures i < 0 ==> x !in s
  {
    if s == [] then -1
    else if s[0] == x then 0
    else
      var k := FirstIndex(s[1..], x);
      if k < 0 then -1 else k + 1
  }

  /** The sequence without its first occurrence of x. */
  function RemoveFirst(s: seq<string>, x: string): seq<string>
  {
    var i := FirstIndex(s, x);
    if i < 0 then s else s[..i] + s[i + 1..]
  }

  /** promoteToFront's result: x first, then the old order without x. */
  function Promote(s: seq<string>, x: string): seq<string>
  {
    [x] + RemoveFirst(s, x)
  }

  /** The first n elements, or all of them when there are fewer. */
  function Take(s: seq<string>, n: nat): (r: seq<string>)
    ensures |r| == if |s| <= n then |s| else n
    ensures r == s[..|r|]
  {
    if |s| > n then s[..n] else s
  }

  /** Without duplicates, removing x leaves every other element and no x. */
  lemma RemoveFirstDistinct(s: seq<string>, x: string)
    requires NoDuplicates(s)
    ensures NoDuplicates(RemoveFirst(s, x))
    ensures x !in RemoveFirst(s, x)
    ensures Elems(RemoveFirst(s, x)) == Elems(s) - {x}
  {
    var i := FirstIndex(s, x);
    if i >= 0 {
      RemovedAt(s, i);
      RemovedElems(s, i);
    }
  }

  /** Dropping position i of a duplicate-free sequence keeps it duplicate-free. */
  lemma RemovedAt(s: seq<string>, i: nat)
    requires NoDuplicates(s) && i < |s|
    ensures NoDuplicates(s[..i] + s[i + 1..])
  {
    var r := s[..i] + s[i + 1..];
    forall a, b | 0 <= a < b < |r| ensures r[a] != r[b] {
      var a' := if a < i then a else a + 1;
      var b' := if b < i then b else b + 1;
      assert r[a] == s[a'] && r[b] == s[b'] && a' < b';
    }
  }

  /** Dropping position i of a duplicate-free sequence removes exactly the element there. */
  lemma RemovedElems(s: seq<string>, i: nat)
    requires NoDuplicates(s) && i < |s|
    ensures Elems(s[..i] + s[i + 1..]) == Elems(s) - {s[i]}
  {
    var r := s[..i] + s[i + 1..];
    forall p | p in Elems(s) - {s[i]} ensures p in Elems(r) {
      var k :| 0 <= k < |s| && s[k] == p;
      if k < i { assert r[k] == p; } else { assert r[k - 1] == p; }
    }
    forall p | p in Elems(r) ensures p in Elems(s) - {s[i]} {
      var k :| 0 <= k < |r| && r[k] == p;
      var k' := if k < i then k else k + 1;
      assert s[k'] == p && k' != i;
    }
  }

  /** promoteToFront keeps the order free of duplicates and adds x. */
  lemma PromoteDistinct(s: seq<string>, x: string)
    requires NoDuplicates(s)
    ensures NoDuplicates(Promote(s, x)) && Promote(s, x)[0] == x
    ensures Elems(Promote(s, x)) == Elems(s) + {x}
  {
    RemoveFirstDistinct(s, x);
    var r := RemoveFirst(s, x);
    assert Elems([x] + r) == {x} + Elems(r);
  }

  /** A sequence without duplicates has as many distinct elements as it is long. */
  lemma {:induction false} DistinctCard(s: seq<string>)
    requires NoDuplicates(s)
    ensures |Elems(s)| == |s|
  {
    if s != [] {
      var t := s[..|s| - 1];
      assert NoDuplicates(t);
      DistinctCard(t);
      assert Elems(s) == Elems(t) + {s[|s| - 1]};
      assert s[|s| - 1] !in Elems(t);
    }
  }

  class MetadataCache<R> {
    var roots: map<string, R>
    var timestamps: map<string, int>
    var accessOrder: seq<string>
    var maxEntries: nat

    /** Both maps hold exactly the paths of the access order, which is bounded and has no repeats. */
    ghost predicate Valid()
      reads this
    {
      maxEntries > 0
      && roots.Keys == Elems(accessOrder)
      && timestamps.Keys == Elems(accessOrder)
      && NoDuplicates(accessOrder)
      && |accessOrder| <= maxEntries
    }

    /** NewMetadataCacheWithLimit: a limit of 0 or less means the default of 100. */
    constructor (limit: int)
      ensures maxEntries == if limit <= 0 then DefaultCacheMaxEntries else limit
      ensures roots == map[] && timestamps == map[] && accessOrder == []
      ensures Valid()
    {
      var n := limit;
      if n <= 0 {
        n := DefaultCacheMaxEntries;
      }
      roots := map[];
      timestamps := map[];
      accessOrder := [];
      maxEntries := n;
    }

    /** promoteToFront: take the path out of the access order (first occurrence) and put it in front. */
    method PromoteToFront(path: string)
      modifies this
      ensures accessOrder == Promote(old(accessOrder), path)
      ensures roots == old(roots) && timestamps == old(timestamps) && maxEntries == old(maxEntries)
    {
      var i := 0;
      while i < |accessOrder|
        invariant 0 <= i <= |accessOrder| && accessOrder == old(accessOrder)
        invariant forall j :: 0 <= j < i ==> accessOrder[j] != path
      {
        if accessOrder[i] == path {
          assert FirstIndex(accessOrder, path) == i;
          accessOrder := accessOrder[..i] + accessOrder[i + 1..];
          break;
        }
        i := i + 1;
      }
      accessOrder := [path] + accessOrder;
    }

    /** evictIfNeeded: drop least recently used paths from the back, and from both maps, until within the limit. */
    method EvictIfNeeded()
      modifies this
      ensures accessOrder == Take(old(accessOrder), maxEntries)
      ensures roots == old(roots) - Elems(old(accessOrder)[|accessOrder|..])
      ensures timestamps == old(timestamps) - Elems(old(accessOrder)[|accessOrder|..])
      ensures maxEntries == old(maxEntries)
    {
      while |accessOrder| > maxEntries
        invariant |accessOrder| <= |old(accessOrder)| && accessOrder == old(accessOrder)[..|accessOrder|]
        invariant |accessOrder| >= maxEntries || accessOrder == old(accessOrder)
        invariant roots == old(roots) - Elems(old(accessOrder)[|accessOrder|..])
        invariant timestamps == old(timestamps) - Elems(old(accessOrder)[|accessOrder|..])
        invariant maxEntries == old(maxEntries)
        decreases |accessOrder|
      {
        var n := |accessOrder| - 1;
        var oldest := accessOrder[n];
        ghost var dropped := Elems(old(accessOrder)[n + 1..]);
        assert Elems(old(accessOrder)[n..]) == dropped + {oldest} by {
          assert old(accessOrder)[n..] == [oldest] + old(accessOrder)[n + 1..];
        }
        accessOrder := accessOrder[..n];
        roots := roots - {oldest};
        timestamps := timestamps - {oldest};
      }
    }

    /** The cache hit of GetOrLoad: a cached root whose file is not newer than when it was loaded. */
    method Lookup(path: string, modTime: Option<int>) returns (r: Option<R>)
      requires Valid()
      modifies this
      ensures Valid()
      ensures r.Some? <==> path in old(roots) && modTime.Some? && modTime.value <= old(timestamps)[path]
      ensures r.Some? ==> r.value == old(roots)[path] && accessOrder == Promote(old(accessOrder), path)
      ensures r.None? ==> accessOrder == old(accessOrder)
      ensures roots == old(roots) && timestamps == old(timestamps) && maxEntries == old(maxEntries)
    {
      if path in roots && modTime.Some? && modTime.value <= timestamps[path] {
        PromoteToFront(path);
        PromoteDistinct(old(accessOrder), path);
        assert Elems(accessOrder) == Elems(old(accessOrder));
        DistinctCard(old(accessOrder));
        DistinctCard(accessOrder);
        return Some(roots[path]);
      }
      return None;
    }

    /** The cache update of GetOrLoad after a load: record, promote, then evict. */
    method Store(path: string, root: R, modTime: int)
      requires Valid()
      modifies this
      ensures Valid()
      ensures accessOrder == Take(Promote(old(accessOrder), path), maxEntries)
      ensures path in roots && roots[path] == root && timestamps[path] == modTime
      ensures forall p :: p in roots <==> p in accessOrder
      ensures forall p :: p in roots && p != path ==> roots[p] == old(roots)[p] && timestamps[p] == old(timestamps)[p]
      ensures maxEntries == old(maxEntries)
    {
      roots := roots[path := root];
      timestamps := timestamps[path := modTime];
      PromoteToFront(path);
      PromoteDistinct(old(accessOrder), path);
      ghost var promoted := accessOrder;
      EvictIfNeeded();
      EvictedKeys(roots.Keys, old(roots).Keys, old(accessOrder), path, maxEntries);
      EvictedKeys(timestamps.Keys, old(timestamps).Keys, old(accessOrder), path, maxEntries);
    }

    /** Invalidate: forget one path in both maps and in the access order. */
    method Invalidate(path: string)
      modifies this
      ensures roots == old(roots) - {path} && timestamps == old(timestamps) - {path}
      ensures accessOrder == RemoveFirst(old(accessOrder), path)
      ensures maxEntries == old(maxEntries)
      ensures old(Valid()) ==> Valid() && path !in accessOrder
    {
      roots := roots - {path};
      timestamps := timestamps - {path};
      var i := 0;
      while i < |accessOrder|
        invariant 0 <= i <= |accessOrder| && accessOrder == old(accessOrder)
        invariant forall j :: 0 <= j < i ==> accessOrder[j] != path
      {
        if accessOrder[i] == path {
          assert FirstIndex(accessOrder, path) == i;
          accessOrder := accessOrder[..i] + accessOrder[i + 1..];
          break;
        }
        i := i + 1;
      }
      if old(Valid()) {
        RemoveFirstDistinct(old(accessOrder), path);
      }
    }

    /** Clear: an empty cache with the same limit. */
    method Clear()
      modifies this
      ensures roots == map[] && timestamps == map[] && accessOrder == []
      ensures maxEntries == old(maxEntries)
      ensures old(maxEntries) > 0 ==> Valid()
    {
      roots := map[];
      timestamps := map[];
      accessOrder := [];
    }

    /** Size: the number of cached roots, never more than the limit. */
    method Size() returns (n: nat)
      ensures n == |roots|
      ensures Valid() ==> n == |accessOrder| && n <= maxEntries
    {
      n := |roots|;
      if Valid() {
        DistinctCard(accessOrder);
      }
    }
  }

  /**
   * The keys left after storing a path, promoting it and evicting from the back are exactly the
   * kept order, which still starts with the path.
   */
  lemma EvictedKeys(keys: set<string>, before: set<string>, order: seq<string>, path: string, n: nat)
    requires NoDuplicates(order) && before == Elems(order) && n > 0
    requires keys == (before + {path}) - Elems(Promote(order, path)[|Take(Promote(order, path), n)|..])
    ensures keys == Elems(Take(Promote(order, path), n))
    ensures NoDuplicates(Take(Promote(order, path), n)) && path in Take(Promote(order, path), n)
  {
    PromoteDistinct(order, path);
    EvictedPrefixValid(Promote(order, path), n);
    assert Take(Promote(order, path), n)[0] == path;
  }

  /** Keeping a prefix of a duplicate-free order leaves exactly its elements, still without duplicates. */
  lemma EvictedPrefixValid(s: seq<string>, n: nat)
    requires NoDuplicates(s)
    ensures NoDuplicates(Take(s, n))
    ensures Elems(Take(s, n)) == Elems(s) - Elems(s[|Take(s, n)|..])
  {
    var k := |Take(s, n)|;
    var kept, dropped := s[..k], s[k..];
    assert Take(s, n) == kept;
    forall p | p in Elems(kept) ensures p in Elems(s) && p !in Elems(dropped) {
      var i :| 0 <= i < k && kept[i] == p;
      assert s[i] == p;
    }
    forall p | p in Elems(s) && p !in Elems(dropped) ensures p in Elems(kept) {
      var i :| 0 <= i < |s| && s[i] == p;
      if i < k { assert kept[i] == p; }
    }
  }
}

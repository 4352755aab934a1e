/**
 * The storage listing and the choice of the latest backup in it:
 * `sorted(objs, key=get_last_modified)` followed by `objs[-1]`.
 */
module Listing {

  /** Time is counted in microseconds since 1970-01-01 00:00:00 UTC. */
  const MicrosPerSecond: int := 1_000_000

  /** One listed object: its key and the instant it was last modified. */
  datatype StorageObject = StorageObject(key: string, lastModified: int)

  /**
   * `get_last_modified`: the modification time as whole seconds since the epoch
   * (`strftime('%s')` drops the microseconds, so this rounds down).
   */
  function SortKey(o: StorageObject): (r: int)
    ensures r * MicrosPerSecond <= o.lastModified < r * MicrosPerSecond + MicrosPerSecond
  {
    o.lastModified / MicrosPerSecond
  }

  predicate SortedByKey(s: seq<StorageObject>) {
    forall i, j :: 0 <= i < j < |s| ==> SortKey(s[i]) <= SortKey(s[j])
  }

  /** The objects of `s` whose sort key is `k`, in the order they appear in `s`. */
  function WithKey(s: seq<StorageObject>, k: int): seq<StorageObject> {
    if s == [] then []
    else WithKey(s[..|s| - 1], k) + (if SortKey(s[|s| - 1]) == k then [s[|s| - 1]] else [])
  }

  /**
   * Puts `x` into the sorted `s` after every object whose key is not greater
   * than its own, so that among equal keys `x` comes last.
   */
  function Insert(s: seq<StorageObject>, x: StorageObject): (r: seq<StorageObject>)
    ensures |r| == |s| + 1
  {
    if s == [] || SortKey(s[|s| - 1]) <= SortKey(x) then s + [x]
    else Insert(s[..|s| - 1], x) + [s[|s| - 1]]
  }

  /** Python's stable `sorted(s, key=get_last_modified)`, as an insertion sort. */
  function Sort(s: seq<StorageObject>): (r: seq<StorageObject>)
    ensures |r| == |s|
  {
    if s == [] then [] else Insert(Sort(s[..|s| - 1]), s[|s| - 1])
  }

  /** `objs[-1]` after sorting: a listed object with the greatest key. */
  function Latest(s: seq<StorageObject>): (r: StorageObject)
    requires s != []
    ensures r in s
    ensures forall j :: 0 <= j < |s| ==> SortKey(s[j]) <= SortKey(r)
  {
    SortIsStableSort(s);
    var sorted := Sort(s);
    assert sorted[|s| - 1] in multiset(s);
    assert forall j :: 0 <= j < |s| ==> s[j] in multiset(sorted);
    sorted[|s| - 1]
  }

  /** The key of the last object of `WithKey(s, k)` plus one more. */
  lemma WithKeySnoc(s: seq<StorageObject>, x: StorageObject, k: int)
    ensures WithKey(s + [x], k) == WithKey(s, k) + (if SortKey(x) == k then [x] else [])
  {
    assert (s + [x])[..|s|] == s;
  }

  /** Inserting adds `x` and nothing else. */
  lemma {:induction false} InsertPermutes(s: seq<StorageObject>, x: StorageObject)
    ensures multiset(Insert(s, x)) == multiset(s) + multiset{x}
  {
    if s != [] && SortKey(x) < SortKey(s[|s| - 1]) {
      InsertPermutes(s[..|s| - 1], x);
      assert s == s[..|s| - 1] + [s[|s| - 1]];
    }
  }

  /**
   * Inserting into a sorted sequence keeps it sorted, and no key rises above
   * the larger of the key of `x` and the last key of `s`.
   */
  lemma {:induction false} InsertOrdered(s: seq<StorageObject>, x: StorageObject)
    requires SortedByKey(s)
    ensures SortedByKey(Insert(s, x))
    ensures forall i :: 0 <= i < |s| + 1 ==>
      SortKey(Insert(s, x)[i]) <= SortKey(x) || SortKey(Insert(s, x)[i]) <= SortKey(s[|s| - 1])
  {
    if s != [] && SortKey(x) < SortKey(s[|s| - 1]) {
      var init, last := s[..|s| - 1], s[|s| - 1];
      InsertOrdered(init, x);
      var ri := Insert(init, x);
      assert forall i :: 0 <= i < |ri| ==> SortKey(ri[i]) <= SortKey(last);
    }
  }

  /** Inserting `x` adds it behind every object with the same key and changes nothing else key by key. */
  lemma {:induction false} InsertWithKey(s: seq<StorageObject>, x: StorageObject, k: int)
    requires SortedByKey(s)
    ensures WithKey(Insert(s, x), k) == WithKey(s, k) + (if SortKey(x) == k then [x] else [])
  {
    if s == [] || SortKey(s[|s| - 1]) <= SortKey(x) {
      WithKeySnoc(s, x, k);
    } else {
      var init, last := s[..|s| - 1], s[|s| - 1];
      InsertWithKey(init, x, k);
      WithKeySnoc(Insert(init, x), last, k);
      assert s == init + [last];
      WithKeySnoc(init, last, k);
    }
  }

  /**
   * The sorted listing is ordered by key, is a permutation of the listing, and
   * keeps the listing order among objects with equal keys (stability).
   */
  lemma {:induction false} SortIsStableSort(s: seq<StorageObject>)
    ensures SortedByKey(Sort(s))
    ensures multiset(Sort(s)) == multiset(s)
    ensures forall k :: WithKey(Sort(s), k) == WithKey(s, k)
  {
    if s != [] {
      var init, last := s[..|s| - 1], s[|s| - 1];
      SortIsStableSort(init);
      InsertOrdered(Sort(init), last);
      InsertPermutes(Sort(init), last);
      assert s == init + [last];
      forall k ensures WithKey(Sort(s), k) == WithKey(s, k) {
        InsertWithKey(Sort(init), last, k);
        WithKeySnoc(init, last, k);
      }
    }
  }

  /**
   * Two key-ordered sequences that agree, key by key, on which objects they hold
   * and in what order, are the same sequence.
   */
  lemma {:induction false} SortedWithSameKeysEqual(t: seq<StorageObject>, u: seq<StorageObject>)
    requires SortedByKey(t) && SortedByKey(u)
    requires forall k :: WithKey(t, k) == WithKey(u, k)
    ensures t == u
  {
    if t == [] && u == [] {
    } else if t == [] || u == [] {
      LastHasItsKey(if t == [] then u else t);
      assert false;
    } else {
      var kt, ku := SortKey(t[|t| - 1]), SortKey(u[|u| - 1]);
      if kt != ku {
        var (hi, lo) := if kt > ku then (t, u) else (u, t);
        var k := SortKey(hi[|hi| - 1]);
        NoLargerKey(lo, k);
        LastHasItsKey(hi);
        assert false;
      }
      var t', u' := t[..|t| - 1], u[..|u| - 1];
      assert t == t' + [t[|t| - 1]] && u == u' + [u[|u| - 1]];
      forall k ensures WithKey(t', k) == WithKey(u', k) {
        WithKeySnoc(t', t[|t| - 1], k);
        WithKeySnoc(u', u[|u| - 1], k);
        var wt, wu := WithKey(t, k), WithKey(u, k);
        assert wt == wu;
        if k == kt {
          assert wt == WithKey(t', k) + [t[|t| - 1]];
          assert wu == WithKey(u', k) + [u[|u| - 1]];
          assert WithKey(t', k) == wt[..|wt| - 1];
          assert WithKey(u', k) == wu[..|wu| - 1];
        } else {
          assert wt == WithKey(t', k);
          assert wu == WithKey(u', k);
        }
      }
      SortedWithSameKeysEqual(t', u');
      WithKeySnoc(t', t[|t| - 1], kt);
      WithKeySnoc(u', u[|u| - 1], kt);
      var w := WithKey(t, kt);
      assert w == WithKey(t', kt) + [t[|t| - 1]] == WithKey(u', kt) + [u[|u| - 1]];
      assert t[|t| - 1] == w[|w| - 1] == u[|u| - 1];
    }
  }

  /** The last object shows up among the objects with its own key. */
  lemma LastHasItsKey(s: seq<StorageObject>)
    requires s != []
    ensures WithKey(s, SortKey(s[|s| - 1])) != []
  {
  }

  /** A sorted sequence holds no object with a key above that of its last one. */
  lemma {:induction false} NoLargerKey(s: seq<StorageObject>, k: int)
    requires SortedByKey(s) && s != [] && SortKey(s[|s| - 1]) < k
    ensures WithKey(s, k) == []
  {
    if |s| > 1 {
      NoLargerKey(s[..|s| - 1], k);
    }
  }

  /**
   * Any stable sort of the listing gives what `Sort` gives, so the insertion
   * sort stands for Python's `sorted` whatever algorithm that uses.
   */
  lemma StableSortIsUnique(s: seq<StorageObject>, t: seq<StorageObject>)
    requires SortedByKey(t)
    requires forall k :: WithKey(t, k) == WithKey(s, k)
    ensures t == Sort(s)
  {
    SortIsStableSort(s);
    SortedWithSameKeysEqual(t, Sort(s));
  }

  /**
   * Reference definition of the selection: the position of the LAST object in
   * listing order among those with the greatest key.
   */
  function LastMaxIndex(s: seq<StorageObject>): (r: nat)
    requires s != []
    ensures r < |s|
    ensures forall j :: 0 <= j < |s| ==> SortKey(s[j]) <= SortKey(s[r])
    ensures forall j :: r < j < |s| ==> SortKey(s[j]) < SortKey(s[r])
  {
    if |s| == 1 then 0
    else
      var i := LastMaxIndex(s[..|s| - 1]);
      if SortKey(s[i]) <= SortKey(s[|s| - 1]) then |s| - 1 else i
  }

  /**
   * The selected object has the greatest key of the listing; among several with
   * that key it is the one that comes last in the listing.
   */
  lemma {:induction false} LatestIsLastMaximal(s: seq<StorageObject>)
    requires s != []
    ensures Latest(s) == s[LastMaxIndex(s)]
  {
    if |s| > 1 {
      var init := s[..|s| - 1];
      LatestIsLastMaximal(init);
      var sorted := Sort(init);
      assert sorted[..|sorted| - 1] + [sorted[|sorted| - 1]] == sorted;
    }
  }

  /** Reordering the listing does not change the key of the selected object. */
  lemma LatestKeyIgnoresOrder(s: seq<StorageObject>, t: seq<StorageObject>)
    requires s != [] && multiset(s) == multiset(t)
    ensures t != []
    ensures SortKey(Latest(s)) == SortKey(Latest(t))
  {
    assert s[0] in multiset(t);
    LatestIsLastMaximal(s);
    LatestIsLastMaximal(t);
    var i, j := LastMaxIndex(s), LastMaxIndex(t);
    assert s[i] in multiset(t);
    assert t[j] in multiset(s);
  }

  /** Of two objects with the same key, the one listed second is selected. */
  lemma TieGoesToLaterListed(a: StorageObject, b: StorageObject)
    requires SortKey(a) == SortKey(b)
    ensures Latest([a, b]) == b && Latest([b, a]) == a
  {
    LatestIsLastMaximal([a, b]);
    LatestIsLastMaximal([b, a]);
  }
}

/** dbSearchSeries and dbSearchContainers in cmd/sklad/db.go: a lower-cased
    query matched first exactly against series prefixes or container IDs,
    then as a substring of descriptions. */
module InventorySearch {
  import opened ContainerTree
  import opened Inventory
  import opened InventoryLoad

  // ---------------------------------------------------------------------------
  // Strings

  predicate StartsWith(s: string, p: string)
  {
    |p| <= |s| && s[..|p|] == p
  }

  /** strings.Contains: `sub` occurs somewhere in `s`. */
  predicate Contains(s: string, sub: string)
    decreases |s|
  {
    StartsWith(s, sub) || (|s| > 0 && Contains(s[1..], sub))
  }

  /** `sub` occurs in `s` starting at position `i`. */
  predicate OccursAt(s: string, sub: string, i: int)
  {
    0 <= i && i + |sub| <= |s| && s[i..i + |sub|] == sub
  }

  /** Contains agrees with the positional definition of a substring. */
  lemma {:induction false} ContainsMeans(s: string, sub: string)
    ensures Contains(s, sub) <==> exists i :: OccursAt(s, sub, i)
    decreases |s|
  {
    if StartsWith(s, sub) {
      assert OccursAt(s, sub, 0);
    } else if |s| > 0 {
      ContainsMeans(s[1..], sub);
      if Contains(s[1..], sub) {
        var i :| OccursAt(s[1..], sub, i);
        SliceShift(s, i + 1, |sub|);
        assert OccursAt(s, sub, i + 1);
      } else {
        forall i ensures !OccursAt(s, sub, i) {
          if OccursAt(s, sub, i) && i > 0 {
            SliceShift(s, i, |sub|);
            assert OccursAt(s[1..], sub, i - 1);
          }
        }
      }
    } else {
      assert StartsWith(s, []);
      forall i ensures !OccursAt(s, sub, i) {
      }
    }
  }

  /** A slice of `s` away from its head is the same slice of `s[1..]`,
      shifted by one. */
  lemma SliceShift(s: string, i: int, n: nat)
    requires 1 <= i && i + n <= |s|
    ensures s[i..i + n] == s[1..][i - 1..i - 1 + n]
  {
    var a, b := s[i..i + n], s[1..][i - 1..i - 1 + n];
    assert |a| == n == |b|;
    forall k | 0 <= k < n ensures a[k] == b[k] {
      assert a[k] == s[i + k] && b[k] == s[1..][i - 1 + k];
    }
  }

  // ---------------------------------------------------------------------------
  // Sequences

  /** The elements of `xs` that `keep` accepts, in order: appending in a loop. */
  function Filter<T(!new)>(xs: seq<T>, keep: T -> bool): (r: seq<T>)
    ensures |r| <= |xs|
    ensures forall x :: x in r <==> x in xs && keep(x)
  {
    if xs == [] then [] else (if keep(xs[0]) then [xs[0]] else []) + Filter(xs[1..], keep)
  }

  lemma {:induction false} FilterDistinct<T(!new)>(xs: seq<T>, keep: T -> bool)
    requires Distinct(xs)
    ensures Distinct(Filter(xs, keep))
  {
    if xs != [] {
      FilterDistinct(xs[1..], keep);
      var rest := Filter(xs[1..], keep);
      assert xs[0] !in xs[1..];
      assert xs[0] !in rest;
      var r := (if keep(xs[0]) then [xs[0]] else []) + rest;
      forall i, j | 0 <= i < j < |r| ensures r[i] != r[j] {
        if keep(xs[0]) && i == 0 {
          assert r[j] == rest[j - 1];
        }
      }
    }
  }

  /** Two distinct sequences with no element in common concatenate to a
      distinct one. */
  lemma DisjointDistinct<T>(a: seq<T>, b: seq<T>)
    requires Distinct(a) && Distinct(b) && forall x :: x in a ==> x !in b
    ensures Distinct(a + b)
  {
    forall i, j | 0 <= i < j < |a + b| ensures (a + b)[i] != (a + b)[j] {
      if j < |a| {
        assert (a + b)[i] == a[i] && (a + b)[j] == a[j];
      } else if i < |a| {
        assert (a + b)[i] == a[i] && a[i] in a;
        assert (a + b)[j] == b[j - |a|];
      } else {
        assert (a + b)[i] == b[i - |a|] && (a + b)[j] == b[j - |a|];
      }
    }
  }

  /** Each key looked up in the map: the references a Go range collects. */
  function Lookup<V>(ks: seq<string>, m: map<string, V>): (vs: seq<V>)
    requires forall k :: k in ks ==> k in m
    ensures |vs| == |ks| && forall i :: 0 <= i < |ks| ==> vs[i] == m[ks[i]]
  {
    seq(|ks|, i requires 0 <= i < |ks| => m[ks[i]])
  }

  // ---------------------------------------------------------------------------
  // dbSearchSeries

  /** The series, in db.Series order, whose prefix is the query or whose
      description contains it; `lower` is strings.ToLower. The second pass
      skips prefixes the first one added. */
  function SearchSeries(db: Db, lower: string -> string, query: string): (r: seq<Series>)
    requires forall p :: p in db.series ==> p in db.indexSeries
    ensures forall s :: s in r <==>
      && s in SeriesListing(db.series, db.indexSeries)
      && (lower(query) == lower(s.prefix) || Contains(lower(s.description), lower(query)))
    ensures forall i, j :: 0 <= i < j < |r| && lower(query) == lower(r[j].prefix) ==>
      lower(query) == lower(r[i].prefix)
  {
    var list := SeriesListing(db.series, db.indexSeries);
    var q := lower(query);
    var exact := Filter(list, (s: Series) => q == lower(s.prefix));
    var added := set s | s in exact :: s.prefix;
    var rest := Filter(list, (s: Series) => Contains(lower(s.description), q) && s.prefix !in added);
    assert forall s :: s in rest ==> q != lower(s.prefix);
    exact + rest
  }

  /** No series is listed twice. */
  lemma SearchSeriesDistinct(db: Db, lower: string -> string, query: string)
    requires SeriesOk(db.series, db.indexSeries)
    ensures Distinct(SearchSeries(db, lower, query))
  {
    var list := SeriesListing(db.series, db.indexSeries);
    assert Distinct(list) by {
      forall i, j | 0 <= i < j < |list| ensures list[i] != list[j] {
        assert list[i].prefix == db.series[i];
      }
    }
    var q := lower(query);
    var exact := Filter(list, (s: Series) => q == lower(s.prefix));
    var added := set s | s in exact :: s.prefix;
    var rest := Filter(list, (s: Series) => Contains(lower(s.description), q) && s.prefix !in added);
    FilterDistinct(list, (s: Series) => q == lower(s.prefix));
    FilterDistinct(list, (s: Series) => Contains(lower(s.description), q) && s.prefix !in added);
    DisjointDistinct(exact, rest);
  }

  // ---------------------------------------------------------------------------
  // dbSearchContainers

  /** An order in which a Go range over a map with these keys may visit
      them: each key exactly once. */
  predicate RangeOrder<V>(order: seq<string>, m: map<string, V>)
  {
    && Distinct(order)
    && (forall id :: id in order ==> id in m)
    && (forall id :: id in m ==> id in order)
  }

  /** The IDs dbSearchContainers collects, given the order of each of its
      two passes over indexContainer. */
  function ContainerHits(index: map<string, Ref>, heap: map<Ref, Container>, q: string,
                         lower: string -> string, exactOrder: seq<string>, textOrder: seq<string>): (ids: seq<string>)
    requires RangeOrder(exactOrder, index) && RangeOrder(textOrder, index)
    ensures Distinct(ids)
    ensures forall id :: id in ids <==>
      && id in index
      && (q == lower(id) || (index[id] in heap && Contains(lower(heap[index[id]].description), q)))
    ensures forall i, j :: 0 <= i < j < |ids| && q == lower(ids[j]) ==> q == lower(ids[i])
  {
    var exact := Filter(exactOrder, id => q == lower(id));
    var added := set id | id in exact;
    var rest := Filter(textOrder, id =>
      id in index && index[id] in heap && Contains(lower(heap[index[id]].description), q) && id !in added);
    FilterDistinct(exactOrder, id => q == lower(id));
    FilterDistinct(textOrder, id =>
      id in index && index[id] in heap && Contains(lower(heap[index[id]].description), q) && id !in added);
    DisjointDistinct(exact, rest);
    assert forall id :: id in index ==> (id in added <==> q == lower(id));
    exact + rest
  }

  /** The containers whose ID is the query or whose description contains it,
      exact matches first. */
  function SearchContainers(db: Db, lower: string -> string, query: string,
                            exactOrder: seq<string>, textOrder: seq<string>): (r: seq<Ref>)
    requires RangeOrder(exactOrder, db.store.indexContainer) && RangeOrder(textOrder, db.store.indexContainer)
    ensures forall c :: c in r <==> exists id :: (
      && id in db.store.indexContainer && db.store.indexContainer[id] == c
      && (lower(query) == lower(id) || (c in db.store.heap && Contains(lower(db.store.heap[c].description), lower(query)))))
  {
    var ids := ContainerHits(db.store.indexContainer, db.store.heap, lower(query), lower, exactOrder, textOrder);
    var r := Lookup(ids, db.store.indexContainer);
    assert forall c :: c in r ==> exists i :: 0 <= i < |ids| && r[i] == c;
    r
  }

  /** In a valid database the search lists no container twice, lists
      exact ID matches first, and finds the same containers whatever order
      the map ranges take. */
  lemma SearchContainersShape(db: Db, lower: string -> string, query: string,
                              exactOrder: seq<string>, textOrder: seq<string>,
                              exactOrder': seq<string>, textOrder': seq<string>)
    requires RefsOk(db.store.containers, db.store.heap)
    requires IndexOk(db.prefix, db.store.containers, db.store.heap, db.store.indexContainer)
    requires RangeOrder(exactOrder, db.store.indexContainer) && RangeOrder(textOrder, db.store.indexContainer)
    requires RangeOrder(exactOrder', db.store.indexContainer) && RangeOrder(textOrder', db.store.indexContainer)
    ensures var r := SearchContainers(db, lower, query, exactOrder, textOrder);
      && Distinct(r)
      && (forall i, j :: 0 <= i < j < |r| && lower(query) == lower(Id(db.prefix, db.store.heap[r[j]])) ==>
            lower(query) == lower(Id(db.prefix, db.store.heap[r[i]])))
    ensures forall c :: c in SearchContainers(db, lower, query, exactOrder, textOrder) <==>
      c in SearchContainers(db, lower, query, exactOrder', textOrder')
  {
    var index, heap := db.store.indexContainer, db.store.heap;
    var ids := ContainerHits(index, heap, lower(query), lower, exactOrder, textOrder);
    var r := SearchContainers(db, lower, query, exactOrder, textOrder);
    assert r == Lookup(ids, index);
    forall i | 0 <= i < |r| ensures r[i] in heap && Id(db.prefix, heap[r[i]]) == ids[i] {
    }
    forall i, j | 0 <= i < j < |r| ensures r[i] != r[j] {
      assert ids[i] != ids[j];
    }
  }
}

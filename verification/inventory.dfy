/** The in-memory inventory of cmd/sklad/db.go: series and containers, the
    indexes kept beside them, and the operations that create, update and
    remove entries. A container is a reference into a heap, standing for the
    Go `*Container`; series are named by their prefix, which no operation
    changes. */
module Inventory {
  import opened Wrappers
  import Decimal
  import opened ContainerTree

  datatype Series = Series(prefix: string, description: string, counter: nat)

  datatype Container = Container(series: string, number: nat, parent: string, description: string)

  /** A reference to a container record, standing for a Go *Container. */
  type Ref = nat

  /** The containers and the three container indexes, as loaded or kept up
      to date by the operations. */
  datatype Store = Store(
    /** db.Containers in order */
    containers: seq<Ref>,
    heap: map<Ref, Container>,
    indexMembers: map<string, seq<Ref>>,
    indexContainer: map<string, Ref>,
    indexChildren: map<string, seq<Ref>>)

  datatype Db = Db(
    prefix: string,
    /** db.Series in order, by prefix */
    series: seq<string>,
    indexSeries: map<string, Series>,
    store: Store,
    bdfScale: int)

  datatype DbError =
    | InvalidPrefix
    | SeriesAlreadyExists
    | CannotChangePrefix
    | NoSuchSeries
    | SeriesInUse
    | ContainerAlreadyExists
    | NoSuchContainer
    | CannotChangeSeriesNotEmpty
    | CannotChangeNumber
    | WouldContainItself
    | ContainerInUse

  /** The state after an operation and the error it returned, if any. */
  datatype Outcome = Outcome(db: Db, err: Option<DbError>)

  /** dbContainerCreate also fills in the container's number when it is 0. */
  datatype Created = Created(db: Db, c: Container, err: Option<DbError>)

  /** Container.Id: the database prefix, the series and the decimal number. */
  function Id(prefix: string, c: Container): string
  {
    prefix + c.series + Decimal.Format(c.number)
  }

  /** A map's list under a key, empty when the key is missing. */
  function Get(m: map<string, seq<Ref>>, k: string): seq<Ref>
  {
    if k in m then m[k] else []
  }

  /** filterSeries and filterContainer: every element but `x`, in order. */
  function Without<T(==,!new)>(xs: seq<T>, x: T): (r: seq<T>)
    ensures forall y :: y in r <==> y in xs && y != x
    ensures |r| <= |xs|
    ensures x !in xs ==> r == xs
  {
    if |xs| == 0 then []
    else (if xs[0] == x then [] else [xs[0]]) + Without(xs[1..], x)
  }

  lemma {:induction false} WithoutDistinct<T(!new)>(xs: seq<T>, x: T)
    requires Distinct(xs)
    ensures Distinct(Without(xs, x))
    decreases |xs|
  {
    if |xs| > 0 {
      WithoutDistinct(xs[1..], x);
      var rest := Without(xs[1..], x);
      assert xs[0] !in xs[1..];
      if xs[0] != x {
        forall i, j | 0 <= i < j < |[xs[0]] + rest| ensures ([xs[0]] + rest)[i] != ([xs[0]] + rest)[j] {
          if i == 0 {
            assert ([xs[0]] + rest)[j] in rest;
          }
        }
      }
    }
  }

  lemma AppendDistinct<T>(xs: seq<T>, x: T)
    requires Distinct(xs) && x !in xs
    ensures Distinct(xs + [x])
  {
  }

  // ---------------------------------------------------------------------------
  // What a database keeps true

  /** Each container ID mapped to the ID of its parent. */
  function ParentLinks(index: map<string, Ref>, heap: map<Ref, Container>): ContainerTree.Links
  {
    map id | id in index && index[id] in heap :: heap[index[id]].parent
  }

  /** db.Containers lists distinct references into the heap. */
  predicate RefsOk(containers: seq<Ref>, heap: map<Ref, Container>)
  {
    (forall r :: r in containers ==> r in heap) && Distinct(containers)
  }

  /** indexContainer maps exactly the containers' IDs to them, so IDs are unique. */
  predicate IndexOk(prefix: string, containers: seq<Ref>, heap: map<Ref, Container>, index: map<string, Ref>)
  {
    && (forall r :: r in containers ==>
          r in heap && Id(prefix, heap[r]) in index && index[Id(prefix, heap[r])] == r)
    && (forall id :: id in index ==>
          index[id] in containers && index[id] in heap && Id(prefix, heap[index[id]]) == id)
  }

  /** Every parent exists. */
  predicate ParentsOk(containers: seq<Ref>, heap: map<Ref, Container>, index: map<string, Ref>)
  {
    forall r :: r in containers && r in heap ==> heap[r].parent == "" || heap[r].parent in index
  }

  /** Every container is listed under its key in `group`. */
  predicate Listed(containers: seq<Ref>, heap: map<Ref, Container>,
                   group: map<string, seq<Ref>>, key: Container -> string)
  {
    forall r :: r in containers && r in heap ==> r in Get(group, key(heap[r]))
  }

  /** Every list in `group` holds only containers with that key. */
  predicate OnlyListed(containers: seq<Ref>, heap: map<Ref, Container>,
                       group: map<string, seq<Ref>>, key: Container -> string)
  {
    forall k, r :: k in group && r in group[k] ==> r in containers && r in heap && key(heap[r]) == k
  }

  /** An index from a key of each container to the containers under it:
      indexChildren keyed by parent, indexMembers keyed by series. */
  predicate GroupedBy(containers: seq<Ref>, heap: map<Ref, Container>,
                      group: map<string, seq<Ref>>, key: Container -> string)
  {
    Listed(containers, heap, group, key) && OnlyListed(containers, heap, group, key)
  }

  function ParentOf(c: Container): string { c.parent }

  function SeriesOf(c: Container): string { c.series }

  /** The containers form a forest: indexes agree and no container contains itself. */
  ghost predicate StoreOk(prefix: string, s: Store)
  {
    && RefsOk(s.containers, s.heap)
    && IndexOk(prefix, s.containers, s.heap, s.indexContainer)
    && ParentsOk(s.containers, s.heap, s.indexContainer)
    && GroupedBy(s.containers, s.heap, s.indexChildren, ParentOf)
    && GroupedBy(s.containers, s.heap, s.indexMembers, SeriesOf)
    && Acyclic(ParentLinks(s.indexContainer, s.heap))
  }

  /** db.Series and indexSeries hold the same series, each under its prefix. */
  predicate SeriesOk(series: seq<string>, index: map<string, Series>)
  {
    && Distinct(series)
    && (forall p :: p in series ==> p in index)
    && (forall p :: p in index ==> p in series)
    && (forall p :: p in index ==> index[p].prefix == p)
  }

  /** Advancing a series counter keeps the series index in shape. */
  lemma CounterKeepsSeries(series: seq<string>, index: map<string, Series>, p: string, n: nat)
    requires SeriesOk(series, index) && p in index
    ensures SeriesOk(series, index[p := index[p].(counter := n)])
  {
  }

  /** What loadDatabase establishes and every operation keeps. */
  ghost predicate Valid(db: Db)
  {
    db.prefix != "" && StoreOk(db.prefix, db.store) && SeriesOk(db.series, db.indexSeries)
  }

  /** The parent links seen through the indexes stay among the container IDs. */
  lemma LinksParents(prefix: string, s: Store)
    requires RefsOk(s.containers, s.heap) && IndexOk(prefix, s.containers, s.heap, s.indexContainer)
    requires ParentsOk(s.containers, s.heap, s.indexContainer)
    ensures ParentsIn(ParentLinks(s.indexContainer, s.heap))
    ensures forall id :: id in ParentLinks(s.indexContainer, s.heap) <==> id in s.indexContainer
  {
  }

  // ---------------------------------------------------------------------------
  // Series

  /** dbSeriesCreate: an empty prefix and a taken one are refused. */
  function SeriesCreate(db: Db, s: Series): (o: Outcome)
    ensures o.err.None? <==> s.prefix != "" && s.prefix !in db.indexSeries
    ensures o.err == Some(InvalidPrefix) <==> s.prefix == ""
    ensures o.err.Some? ==> o.db == db
    ensures o.err.None? ==>
      && o.db.indexSeries == db.indexSeries[s.prefix := s]
      && o.db.series == db.series + [s.prefix]
      && o.db.store == db.store && o.db.prefix == db.prefix
  {
    if s.prefix == "" then Outcome(db, Some(InvalidPrefix))
    else if s.prefix in db.indexSeries then Outcome(db, Some(SeriesAlreadyExists))
    else Outcome(db.(series := db.series + [s.prefix], indexSeries := db.indexSeries[s.prefix := s]), None)
  }

  /** dbSeriesUpdate: the record is replaced whole, but its prefix may not change. */
  function SeriesUpdate(db: Db, prefix: string, updated: Series): (o: Outcome)
    requires prefix in db.indexSeries
    ensures o.err.None? <==> updated.prefix == prefix
    ensures o.err.Some? ==> o.db == db && o.err == Some(CannotChangePrefix)
    ensures o.err.None? ==>
      && o.db.indexSeries == db.indexSeries[prefix := updated]
      && o.db.series == db.series && o.db.store == db.store && o.db.prefix == db.prefix
  {
    if updated.prefix != prefix then Outcome(db, Some(CannotChangePrefix))
    else Outcome(db.(indexSeries := db.indexSeries[prefix := updated]), None)
  }

  /** dbSeriesRemove: a series with members stays. */
  function SeriesRemove(db: Db, prefix: string): (o: Outcome)
    ensures o.err.None? <==> |Get(db.store.indexMembers, prefix)| == 0
    ensures o.err.Some? ==> o.db == db && o.err == Some(SeriesInUse)
    ensures o.err.None? ==>
      && prefix !in o.db.indexSeries && prefix !in o.db.series
      && (forall p :: p != prefix ==> (p in o.db.series <==> p in db.series))
      && (forall p :: p in o.db.indexSeries <==> p in db.indexSeries && p != prefix)
      && (forall p :: p in o.db.indexSeries ==> o.db.indexSeries[p] == db.indexSeries[p])
      && o.db.store.heap == db.store.heap && o.db.store.containers == db.store.containers
  {
    if |Get(db.store.indexMembers, prefix)| > 0 then Outcome(db, Some(SeriesInUse))
    else
      var s := db.store;
      Outcome(db.(series := Without(db.series, prefix),
                  indexSeries := db.indexSeries - {prefix},
                  store := s.(indexMembers := s.indexMembers - {prefix})), None)
  }

  lemma SeriesCreateValid(db: Db, s: Series)
    requires Valid(db)
    ensures Valid(SeriesCreate(db, s).db)
  {
    if SeriesCreate(db, s).err.None? {
      AppendDistinct(db.series, s.prefix);
    }
  }

  lemma SeriesUpdateValid(db: Db, prefix: string, updated: Series)
    requires Valid(db) && prefix in db.indexSeries
    ensures Valid(SeriesUpdate(db, prefix, updated).db)
  {
  }

  /** Dropping an empty member list changes nothing that matters. */
  lemma DropEmptyMembers(prefix: string, s: Store, k: string)
    requires StoreOk(prefix, s) && |Get(s.indexMembers, k)| == 0
    ensures StoreOk(prefix, s.(indexMembers := s.indexMembers - {k}))
  {
    DropEmptyGroup(s.containers, s.heap, s.indexMembers, SeriesOf, k);
  }

  lemma DropEmptyGroup(containers: seq<Ref>, heap: map<Ref, Container>,
                       group: map<string, seq<Ref>>, key: Container -> string, k: string)
    requires GroupedBy(containers, heap, group, key) && |Get(group, k)| == 0
    ensures GroupedBy(containers, heap, group - {k}, key)
  {
    forall r | r in containers && r in heap ensures r in Get(group - {k}, key(heap[r])) {
      assert r in Get(group, key(heap[r]));
    }
  }

  lemma SeriesRemoveValid(db: Db, prefix: string)
    requires Valid(db)
    ensures Valid(SeriesRemove(db, prefix).db)
  {
    if SeriesRemove(db, prefix).err.None? {
      WithoutDistinct(db.series, prefix);
      DropEmptyMembers(db.prefix, db.store, prefix);
    }
  }
  // ---------------------------------------------------------------------------
  // Containers

  /** Different numbers give different IDs within a series. */
  /** Same number and same ID means same series. */
  lemma SeriesApart(prefix: string, a: Container, b: Container)
    requires a.number == b.number && Id(prefix, a) == Id(prefix, b)
    ensures a.series == b.series
  {
    var x, y := Id(prefix, a), Id(prefix, b);
    assert |a.series| == |b.series|;
    assert x[|prefix|..|prefix| + |a.series|] == a.series;
    assert y[|prefix|..|prefix| + |b.series|] == b.series;
  }

  lemma NumberedApart(stem: string, a: nat, b: nat)
    requires stem + Decimal.Format(a) == stem + Decimal.Format(b)
    ensures a == b
  {
    var x, y := stem + Decimal.Format(a), stem + Decimal.Format(b);
    assert x[|stem|..] == Decimal.Format(a);
    assert y[|stem|..] == Decimal.Format(b);
  }

  /** The number dbContainerCreate picks: the first after `n` whose ID is free. */
  function FreeAfter(taken: set<string>, stem: string, n: nat): (m: nat)
    ensures n < m && stem + Decimal.Format(m) !in taken
    ensures forall k :: n < k < m ==> stem + Decimal.Format(k) in taken
    decreases |taken|
  {
    var id := stem + Decimal.Format(n + 1);
    if id !in taken then n + 1
    else
      var m := FreeAfter(taken - {id}, stem, n + 1);
      if stem + Decimal.Format(m) == id then NumberedApart(stem, m, n + 1); m else m
  }

  /** The container `c` at reference `r`, appended and indexed. */
  function Insert(prefix: string, s: Store, r: Ref, c: Container): Store
  {
    Store(s.containers + [r], s.heap[r := c],
          s.indexMembers[c.series := Get(s.indexMembers, c.series) + [r]],
          s.indexContainer[Id(prefix, c) := r],
          s.indexChildren[c.parent := Get(s.indexChildren, c.parent) + [r]])
  }

  /** dbContainerCreate. A number of 0 asks for the next free one after the
      series counter, and the counter advances to it even if the container is
      then refused for its parent. */
  function ContainerCreate(db: Db, r: Ref, c: Container): (o: Created)
    requires r !in db.store.heap
    ensures o.err == Some(NoSuchSeries) <==> c.series !in db.indexSeries
    ensures o.err.None? <==>
      && c.series in db.indexSeries
      && Id(db.prefix, o.c) !in db.store.indexContainer
      && (c.parent == "" || c.parent in db.store.indexContainer)
    ensures o.err == Some(ContainerAlreadyExists) <==>
      c.series in db.indexSeries && Id(db.prefix, o.c) in db.store.indexContainer
    ensures o.err == Some(NoSuchContainer) <==>
      && c.series in db.indexSeries
      && Id(db.prefix, o.c) !in db.store.indexContainer
      && c.parent != "" && c.parent !in db.store.indexContainer
    ensures o.c.series == c.series && o.c.parent == c.parent && o.c.description == c.description
    ensures c.number != 0 ==> o.c == c && o.db.indexSeries == db.indexSeries
    ensures c.number == 0 && c.series in db.indexSeries ==>
      var counter := db.indexSeries[c.series].counter;
      && counter < o.c.number
      && Id(db.prefix, o.c) !in db.store.indexContainer
      && (forall k :: counter < k < o.c.number ==> Id(db.prefix, o.c.(number := k)) in db.store.indexContainer)
      && o.db.indexSeries == db.indexSeries[c.series := db.indexSeries[c.series].(counter := o.c.number)]
    ensures c.series !in db.indexSeries ==> o.db == db
    ensures o.db.prefix == db.prefix && o.db.series == db.series
    ensures o.err.Some? ==> o.db.store == db.store
    ensures o.err.None? ==>
      && o.db.store == Insert(db.prefix, db.store, r, o.c)
      && o.db.store.containers == db.store.containers + [r]
      && o.db.store.heap == db.store.heap[r := o.c]
      && o.db.store.indexContainer == db.store.indexContainer[Id(db.prefix, o.c) := r]
      && r in Get(o.db.store.indexChildren, c.parent)
      && r in Get(o.db.store.indexMembers, c.series)
  {
    if c.series !in db.indexSeries then Created(db, c, Some(NoSuchSeries))
    else
      var series := db.indexSeries[c.series];
      var index := db.store.indexContainer;
      var c1 := if c.number == 0 then c.(number := FreeAfter(index.Keys, db.prefix + c.series, series.counter)) else c;
      var db1 := if c.number == 0 then db.(indexSeries := db.indexSeries[c.series := series.(counter := c1.number)]) else db;
      if Id(db.prefix, c1) in index then Created(db1, c1, Some(ContainerAlreadyExists))
      else if c1.parent != "" && c1.parent !in index then Created(db1, c1, Some(NoSuchContainer))
      else Created(db1.(store := Insert(db.prefix, db.store, r, c1)), c1, None)
  }

  /** `r` moved from the list under `from` to the end of the list under `to`. */
  function Relink(m: map<string, seq<Ref>>, r: Ref, from: string, to: string): map<string, seq<Ref>>
  {
    var m1 := m[from := Without(Get(m, from), r)];
    m1[to := Get(m1, to) + [r]]
  }

  /** Parent links without cycles: every indexed ID names a live container,
      every parent exists, and no container is its own ancestor. */
  ghost predicate Walkable(s: Store)
  {
    && (forall id :: id in s.indexContainer ==> s.indexContainer[id] in s.heap)
    && ParentsIn(ParentLinks(s.indexContainer, s.heap))
    && Acyclic(ParentLinks(s.indexContainer, s.heap))
  }

  /** Every walk up from an indexed container ends, whatever it looks for. */
  ghost predicate WalksEnd(s: Store)
  {
    && (forall id :: id in s.indexContainer ==> s.indexContainer[id] in s.heap)
    && (forall p, target :: p in ParentLinks(s.indexContainer, s.heap) ==>
          WalkEnds(ParentLinks(s.indexContainer, s.heap), p, target))
  }

  lemma WalkableWalksEnd(s: Store)
    requires Walkable(s)
    ensures WalksEnd(s)
  {
    var links := ParentLinks(s.indexContainer, s.heap);
    forall p, target | p in links ensures WalkEnds(links, p, target) {
      AcyclicWalkEnds(links, p, target);
    }
  }

  lemma ValidWalkable(db: Db)
    requires Valid(db)
    ensures Walkable(db.store) && WalksEnd(db.store)
  {
    LinksParents(db.prefix, db.store);
    WalkableWalksEnd(db.store);
  }

  /** Every check of dbContainerUpdate before its walk passes and the parent
      changes, so the walk up from the new parent runs. */
  predicate WalkRuns(db: Db, r: Ref, updated: Container)
    requires r in db.store.heap
  {
    var s, c := db.store, db.store.heap[r];
    var newId := Id(db.prefix, updated);
    && updated.series in db.indexSeries
    && updated.parent != "" && updated.parent in s.indexContainer
    && (updated.series != c.series ==> |Get(s.indexChildren, Id(db.prefix, c))| == 0)
    && updated.number == c.number
    && (newId in s.indexContainer ==> newId == Id(db.prefix, c))
    && updated.parent != c.parent
  }

  /** What dbContainerUpdate needs in order to return: when its walk runs,
      the walk looking for `target` ends. Otherwise it loops forever or
      dereferences a missing container. */
  ghost predicate UpdateEnds(db: Db, r: Ref, updated: Container, target: string)
    requires r in db.store.heap
  {
    WalkRuns(db, r, updated) ==>
      WalkEnds(ParentLinks(db.store.indexContainer, db.store.heap), updated.parent, target)
  }

  /** A container that is its own parent through the index: an update whose
      walk starts there and looks for another ID never returns. */
  lemma SelfLoopHangs(db: Db, r: Ref, updated: Container)
    requires r in db.store.heap && WalkRuns(db, r, updated)
    requires var links := ParentLinks(db.store.indexContainer, db.store.heap);
      updated.parent in links && links[updated.parent] == updated.parent
    requires Id(db.prefix, updated) != updated.parent
    ensures !UpdateEnds(db, r, updated, Id(db.prefix, updated))
  {
    SelfLoopNeverEnds(ParentLinks(db.store.indexContainer, db.store.heap), updated.parent, Id(db.prefix, updated));
  }

  /** The checks of dbContainerUpdate in their order. The walk up from the new
      parent looks for `target`; dbContainerUpdate looks for the new ID. */
  function UpdateRefusal(db: Db, r: Ref, updated: Container, target: string): Option<DbError>
    requires r in db.store.heap && UpdateEnds(db, r, updated, target)
  {
    var s := db.store;
    var c := s.heap[r];
    var newId := Id(db.prefix, updated);
    if updated.series !in db.indexSeries then Some(NoSuchSeries)
    else if updated.parent != "" && updated.parent !in s.indexContainer then Some(NoSuchContainer)
    else if updated.series != c.series && |Get(s.indexChildren, Id(db.prefix, c))| > 0 then Some(CannotChangeSeriesNotEmpty)
    else if updated.number != c.number then Some(CannotChangeNumber)
    else if newId in s.indexContainer && newId != Id(db.prefix, c) then Some(ContainerAlreadyExists)
    else if updated.parent != c.parent && WouldContain(ParentLinks(s.indexContainer, s.heap), updated.parent, target) then Some(WouldContainItself)
    else None
  }

  /** What refuses an update, with the walk read as "`target` is an ancestor
      of the new parent, or the new parent itself". */
  lemma UpdateRefusalMeans(db: Db, r: Ref, updated: Container, target: string)
    requires r in db.store.heap && UpdateEnds(db, r, updated, target)
    ensures var s, c := db.store, db.store.heap[r];
      UpdateRefusal(db, r, updated, target).None? <==>
      && updated.series in db.indexSeries
      && (updated.parent == "" || updated.parent in s.indexContainer)
      && (updated.series != c.series ==> |Get(s.indexChildren, Id(db.prefix, c))| == 0)
      && updated.number == c.number
      && (Id(db.prefix, updated) in s.indexContainer ==> Id(db.prefix, updated) == Id(db.prefix, c))
      && (updated.parent != c.parent && updated.parent != "" ==>
            forall j :: Up(ParentLinks(s.indexContainer, s.heap), updated.parent, j) != Some(target))
  {
    var s := db.store;
    if WalkRuns(db, r, updated) {
      WouldContainMeans(ParentLinks(s.indexContainer, s.heap), updated.parent, target);
    }
  }

  /** dbContainerUpdate as written: the record changes in place, so a new
      series leaves indexContainer and indexMembers under the old ID. */
  function ContainerUpdateAsWritten(db: Db, r: Ref, updated: Container): (o: Outcome)
    requires r in db.store.heap && UpdateEnds(db, r, updated, Id(db.prefix, updated))
    ensures o.err == UpdateRefusal(db, r, updated, Id(db.prefix, updated))
    ensures o.err.Some? ==> o.db == db
    ensures o.err.None? ==>
      && o.db.store.heap == db.store.heap[r := updated]
      && o.db.store.indexContainer == db.store.indexContainer
      && o.db.store.indexMembers == db.store.indexMembers
      && o.db.store.containers == db.store.containers
      && o.db.store.indexChildren == (if updated.parent != db.store.heap[r].parent
           then Relink(db.store.indexChildren, r, db.store.heap[r].parent, updated.parent)
           else db.store.indexChildren)
      && o.db.prefix == db.prefix && o.db.series == db.series && o.db.indexSeries == db.indexSeries
  {
    var s := db.store;
    var c := s.heap[r];
    var refusal := UpdateRefusal(db, r, updated, Id(db.prefix, updated));
    if refusal.Some? then Outcome(db, refusal)
    else
      var children := if updated.parent != c.parent then Relink(s.indexChildren, r, c.parent, updated.parent) else s.indexChildren;
      Outcome(db.(store := s.(heap := s.heap[r := updated], indexChildren := children)), None)
  }

  /** The store after container `r` becomes `u`, with every index following
      its new ID, series and parent. */
  function Rekey(prefix: string, s: Store, r: Ref, u: Container): Store
    requires r in s.heap
  {
    var c := s.heap[r];
    var oldId, newId := Id(prefix, c), Id(prefix, u);
    Store(s.containers, s.heap[r := u],
          if u.series != c.series then Relink(s.indexMembers, r, c.series, u.series) else s.indexMembers,
          (s.indexContainer - {oldId})[newId := r],
          if u.parent != c.parent then Relink(s.indexChildren, r, c.parent, u.parent) else s.indexChildren)
  }

  /** dbContainerUpdate as intended: the indexes follow the new ID, and the
      walk up from the new parent looks for the container itself. */
  function ContainerUpdate(db: Db, r: Ref, updated: Container): (o: Outcome)
    requires r in db.store.heap && UpdateEnds(db, r, updated, Id(db.prefix, db.store.heap[r]))
    ensures o.err == UpdateRefusal(db, r, updated, Id(db.prefix, db.store.heap[r]))
    ensures o.err.Some? ==> o.db == db
    ensures o.err.None? ==>
      && o.db.store == Rekey(db.prefix, db.store, r, updated)
      && o.db.store.heap == db.store.heap[r := updated]
      && o.db.store.containers == db.store.containers
      && Id(db.prefix, updated) in o.db.store.indexContainer
      && o.db.store.indexContainer[Id(db.prefix, updated)] == r
      && (Id(db.prefix, db.store.heap[r]) != Id(db.prefix, updated) ==>
            Id(db.prefix, db.store.heap[r]) !in o.db.store.indexContainer)
      && o.db.prefix == db.prefix && o.db.series == db.series && o.db.indexSeries == db.indexSeries
  {
    var refusal := UpdateRefusal(db, r, updated, Id(db.prefix, db.store.heap[r]));
    if refusal.Some? then Outcome(db, refusal)
    else Outcome(db.(store := Rekey(db.prefix, db.store, r, updated)), None)
  }

  /** dbContainerRemove: a container with children stays. */
  function ContainerRemove(db: Db, r: Ref): (o: Outcome)
    requires r in db.store.heap
    ensures o.err.None? <==> |Get(db.store.indexChildren, Id(db.prefix, db.store.heap[r]))| == 0
    ensures o.err.Some? ==> o.db == db && o.err == Some(ContainerInUse)
    ensures o.err.None? ==>
      var id := Id(db.prefix, db.store.heap[r]);
      && r !in o.db.store.containers
      && (forall x :: x in o.db.store.containers <==> x in db.store.containers && x != r)
      && id !in o.db.store.indexContainer && id !in o.db.store.indexChildren
      && (forall k :: k in o.db.store.indexContainer <==> k in db.store.indexContainer && k != id)
      && (forall k :: k in o.db.store.indexContainer ==> o.db.store.indexContainer[k] == db.store.indexContainer[k])
      && o.db.store.heap == db.store.heap
  {
    var s := db.store;
    var c := s.heap[r];
    var id := Id(db.prefix, c);
    if |Get(s.indexChildren, id)| > 0 then Outcome(db, Some(ContainerInUse))
    else
      var s' := Store(Without(s.containers, r), s.heap,
                      s.indexMembers[c.series := Without(Get(s.indexMembers, c.series), r)],
                      s.indexContainer - {id},
                      s.indexChildren[c.parent := Without(Get(s.indexChildren, c.parent), r)] - {id});
      Outcome(db.(store := s'), None)
  }
}

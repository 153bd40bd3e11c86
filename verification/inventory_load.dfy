/** loadDatabase in cmd/sklad/db.go: the checks made on a decoded database
    file and the indexes built from it. Container references are the
    containers' positions in the file. */
module InventoryLoad {
  import opened Wrappers
  import opened ContainerTree
  import opened Inventory

  /** The fields of the database file that the checks look at. */
  datatype Stored = Stored(prefix: string, series: seq<Series>, containers: seq<Container>, bdfScale: int)

  datatype LoadError =
    | MisconfiguredPrefix
    | DuplicateSeries(prefix: string)
    | DuplicateContainer(id: string)
    | NonexistentParent(id: string, parent: string)
    | ContainsItself

  // ---------------------------------------------------------------------------
  // Scans in file order

  lemma DistinctExtend<T>(xs: seq<T>, j: nat)
    requires j < |xs| && Distinct(xs[..j]) && xs[j] !in xs[..j]
    ensures Distinct(xs[..j + 1])
  {
    forall a, b | 0 <= a < b < j + 1 ensures xs[a] != xs[b] {
      if b == j {
        assert xs[..j][a] == xs[a];
      }
    }
  }

  /** The first position, from `j` on, whose key was seen before it: where
      inserting into a map in order first meets a taken key. */
  function FirstRepeat<T(==)>(xs: seq<T>, j: nat): (r: Option<nat>)
    requires j <= |xs| && Distinct(xs[..j])
    ensures r.None? <==> Distinct(xs)
    ensures r.Some? ==> j <= r.value < |xs| && xs[r.value] in xs[..r.value] && Distinct(xs[..r.value])
    decreases |xs| - j
  {
    if j == |xs| then assert xs[..j] == xs; None
    else if xs[j] in xs[..j] then
      var k :| 0 <= k < j && xs[..j][k] == xs[j];
      assert xs[k] == xs[j];
      Some(j)
    else
      DistinctExtend(xs, j);
      var r := FirstRepeat(xs, j + 1);
      if r.Some? then
        var k :| 0 <= k < r.value && xs[..r.value][k] == xs[r.value];
        assert xs[k] == xs[r.value];
        r
      else r
  }

  function Prefixes(ss: seq<Series>): (ps: seq<string>)
    ensures |ps| == |ss| && forall i :: 0 <= i < |ss| ==> ps[i] == ss[i].prefix
  {
    seq(|ss|, i requires 0 <= i < |ss| => ss[i].prefix)
  }

  function Ids(prefix: string, cs: seq<Container>): (ids: seq<string>)
    ensures |ids| == |cs| && forall i :: 0 <= i < |cs| ==> ids[i] == Id(prefix, cs[i])
  {
    seq(|cs|, i requires 0 <= i < |cs| => Id(prefix, cs[i]))
  }

  /** The first container, from `j` on, whose parent is neither "" nor a known ID. */
  function FirstOrphan(cs: seq<Container>, known: set<string>, j: nat): (r: Option<nat>)
    requires j <= |cs|
    ensures r.None? <==> forall i :: j <= i < |cs| ==> cs[i].parent == "" || cs[i].parent in known
    ensures r.Some? ==> j <= r.value < |cs| && cs[r.value].parent != "" && cs[r.value].parent !in known
    decreases |cs| - j
  {
    if j == |cs| then None
    else if cs[j].parent != "" && cs[j].parent !in known then Some(j)
    else FirstOrphan(cs, known, j + 1)
  }

  /** The first ID, from `j` on, whose walk up the parents meets an ID twice. */
  function FirstLoop(links: ContainerTree.Links, ids: seq<string>, j: nat): (r: Option<nat>)
    requires ParentsIn(links) && j <= |ids| && forall i :: 0 <= i < |ids| ==> ids[i] in links
    ensures r.None? <==> forall i :: j <= i < |ids| ==> LoopFree(links, ids[i], {ids[i]})
    decreases |ids| - j
  {
    if j == |ids| then None
    else if !LoopFree(links, ids[j], {ids[j]}) then Some(j)
    else FirstLoop(links, ids, j + 1)
  }

  // ---------------------------------------------------------------------------
  // Indexes

  /** References 0 .. n-1, in order. */
  function Refs(n: nat): (rs: seq<Ref>)
    ensures |rs| == n && forall i :: 0 <= i < n ==> rs[i] == i
  {
    seq(n, i => i)
  }

  function HeapOf(cs: seq<Container>): (heap: map<Ref, Container>)
    ensures forall r: Ref :: r in heap <==> r < |cs|
    ensures forall r: Ref :: r in heap ==> heap[r] == cs[r]
  {
    map i: Ref | i < |cs| :: cs[i]
  }

  function IndexOf(ids: seq<string>): (index: map<string, Ref>)
    requires Distinct(ids)
    ensures forall id :: id in index <==> id in ids
    ensures forall i :: 0 <= i < |ids| ==> ids[i] in index && index[ids[i]] == i
    ensures forall id :: id in index ==> index[id] < |ids| && ids[index[id]] == id
  {
    map i | 0 <= i < |ids| :: ids[i] := i
  }

  function SeriesIndex(ss: seq<Series>): (index: map<string, Series>)
    requires Distinct(Prefixes(ss))
    ensures forall p :: p in index <==> p in Prefixes(ss)
    ensures forall p :: p in index ==> index[p].prefix == p
  {
    var ps := Prefixes(ss);
    map i | 0 <= i < |ss| :: ps[i] := ss[i]
  }

  /** The positions below `n` whose key is `k`, in order, as appending in a
      loop over the file builds them. */
  function PositionsWith(cs: seq<Container>, key: Container -> string, k: string, n: nat): (ps: seq<Ref>)
    requires n <= |cs|
    ensures forall i: Ref :: i in ps <==> i < n && key(cs[i]) == k
  {
    if n == 0 then []
    else PositionsWith(cs, key, k, n - 1) + (if key(cs[n - 1]) == k then [n - 1] else [])
  }

  /** indexChildren or indexMembers as loadDatabase builds them. */
  function Group(cs: seq<Container>, key: Container -> string): (g: map<string, seq<Ref>>)
    ensures forall k :: k in g <==> exists i :: 0 <= i < |cs| && key(cs[i]) == k
    ensures forall k :: k in g ==> forall r: Ref :: r in g[k] <==> r < |cs| && key(cs[r]) == k
  {
    map k | k in (set i | 0 <= i < |cs| :: key(cs[i])) :: PositionsWith(cs, key, k, |cs|)
  }

  // ---------------------------------------------------------------------------
  // Loading

  /** The database with the indexes loadDatabase builds; a non-positive
      BDF scale becomes 1. */
  function Indexed(st: Stored, ids: seq<string>): Db
    requires Distinct(Prefixes(st.series)) && Distinct(ids)
  {
    var cs := st.containers;
    Db(st.prefix, Prefixes(st.series), SeriesIndex(st.series),
       Store(Refs(|cs|), HeapOf(cs), Group(cs, SeriesOf), IndexOf(ids), Group(cs, ParentOf)),
       if st.bdfScale <= 0 then 1 else st.bdfScale)
  }

  /** The cycle check: no walk up the parents from a container may meet an
      ID twice. */
  function LoadAcyclic(st: Stored, ids: seq<string>): (r: Result<Db, LoadError>)
    requires st.prefix != "" && Distinct(Prefixes(st.series))
    requires ids == Ids(st.prefix, st.containers) && Distinct(ids)
    requires forall i :: 0 <= i < |ids| ==> st.containers[i].parent == "" || st.containers[i].parent in ids
    ensures r.Err? ==> r == Err(ContainsItself)
    ensures r.Ok? <==> Acyclic(ParentLinks(IndexOf(ids), HeapOf(st.containers)))
    ensures r.Ok? ==> r.value == Indexed(st, ids)
  {
    CycleCheck(st.containers, ids);
    if FirstLoop(ParentLinks(IndexOf(ids), HeapOf(st.containers)), ids, 0).Some? then Err(ContainsItself)
    else Ok(Indexed(st, ids))
  }

  /** The links the loaded indexes define can be walked from every ID, and
      the cycle check over them passes exactly when they are acyclic. */
  lemma CycleCheck(cs: seq<Container>, ids: seq<string>)
    requires |ids| == |cs| && Distinct(ids)
    requires forall i :: 0 <= i < |cs| ==> cs[i].parent == "" || cs[i].parent in ids
    ensures ParentsIn(ParentLinks(IndexOf(ids), HeapOf(cs)))
    ensures forall i :: 0 <= i < |ids| ==> ids[i] in ParentLinks(IndexOf(ids), HeapOf(cs))
    ensures FirstLoop(ParentLinks(IndexOf(ids), HeapOf(cs)), ids, 0).None?
      <==> Acyclic(ParentLinks(IndexOf(ids), HeapOf(cs)))
  {
    LoadedLinks(ids, cs, IndexOf(ids), HeapOf(cs));
    FirstLoopAcyclic(ParentLinks(IndexOf(ids), HeapOf(cs)), ids);
  }

  /** The parent check: every parent but "" must be a known ID. */
  function LoadLinked(st: Stored, ids: seq<string>): (r: Result<Db, LoadError>)
    requires st.prefix != "" && Distinct(Prefixes(st.series))
    requires ids == Ids(st.prefix, st.containers) && Distinct(ids)
    ensures r.Err? && r.error.NonexistentParent? ==>
      && r.error.parent != "" && r.error.parent !in ids
      && exists i :: 0 <= i < |ids| && ids[i] == r.error.id && st.containers[i].parent == r.error.parent
    ensures !(r.Err? && r.error.NonexistentParent?) ==>
      && (forall i :: 0 <= i < |ids| ==> st.containers[i].parent == "" || st.containers[i].parent in ids)
      && r == LoadAcyclic(st, ids)
  {
    var orphan := FirstOrphan(st.containers, IndexOf(ids).Keys, 0);
    if orphan.Some? then
      var i := orphan.value;
      assert ids[i] == Id(st.prefix, st.containers[i]);
      Err(NonexistentParent(ids[i], st.containers[i].parent))
    else
      LoadAcyclic(st, ids)
  }

  /** Container IDs must be unique before any parent is looked up. */
  function LoadContainers(st: Stored): (r: Result<Db, LoadError>)
    requires st.prefix != "" && Distinct(Prefixes(st.series))
    ensures r.Err? && r.error.DuplicateContainer? ==>
      exists i, j :: 0 <= i < j < |st.containers|
        && Id(st.prefix, st.containers[i]) == Id(st.prefix, st.containers[j]) == r.error.id
    ensures r.Err? && !r.error.DuplicateContainer? ==>
      Distinct(Ids(st.prefix, st.containers)) && r == LoadLinked(st, Ids(st.prefix, st.containers))
    ensures r.Ok? ==>
      Distinct(Ids(st.prefix, st.containers)) && r == LoadLinked(st, Ids(st.prefix, st.containers))
  {
    var ids := Ids(st.prefix, st.containers);
    var dup := FirstRepeat(ids, 0);
    if dup.Some? then
      var j := dup.value;
      var i :| 0 <= i < j && ids[..j][i] == ids[j];
      assert ids[i] == ids[j];
      Err(DuplicateContainer(ids[j]))
    else
      LoadLinked(st, ids)
  }

  /** loadDatabase after decoding: the prefix must be set and series
      prefixes unique before containers are looked at. */
  function Load(st: Stored): (r: Result<Db, LoadError>)
    ensures r == Err(MisconfiguredPrefix) <==> st.prefix == ""
    ensures r.Err? && r.error.DuplicateSeries? ==>
      exists i, j :: 0 <= i < j < |st.series| && st.series[i].prefix == st.series[j].prefix == r.error.prefix
    ensures st.prefix != "" && Distinct(Prefixes(st.series)) ==> r == LoadContainers(st)
  {
    if st.prefix == "" then Err(MisconfiguredPrefix)
    else
      var prefixes := Prefixes(st.series);
      var dup := FirstRepeat(prefixes, 0);
      if dup.Some? then
        var j := dup.value;
        var i :| 0 <= i < j && prefixes[..j][i] == prefixes[j];
        assert prefixes[i] == prefixes[j];
        Err(DuplicateSeries(prefixes[j]))
      else
        LoadContainers(st)
  }

  /** Walking up from every listed ID finds no loop exactly when the links,
      whose keys are the listed IDs, are acyclic. */
  lemma FirstLoopAcyclic(links: ContainerTree.Links, ids: seq<string>)
    requires ParentsIn(links)
    requires forall id :: id in links <==> id in ids
    ensures FirstLoop(links, ids, 0).None? <==> Acyclic(links)
  {
    LoopFreeIffAcyclic(links);
    if FirstLoop(links, ids, 0).None? {
      forall id | id in links ensures LoopFree(links, id, {id}) {
        var i :| 0 <= i < |ids| && ids[i] == id;
      }
    }
  }

  /** The parent links of a freshly indexed file: every ID, with its
      container's parent, and parents among the IDs. */
  lemma LoadedLinks(ids: seq<string>, cs: seq<Container>, index: map<string, Ref>, heap: map<Ref, Container>)
    requires |ids| == |cs| && Distinct(ids)
    requires index == IndexOf(ids) && heap == HeapOf(cs)
    requires forall i :: 0 <= i < |cs| ==> cs[i].parent == "" || cs[i].parent in ids
    ensures forall id :: id in ParentLinks(index, heap) <==> id in ids
    ensures forall i :: 0 <= i < |ids| ==> ParentLinks(index, heap)[ids[i]] == cs[i].parent
    ensures ParentsIn(ParentLinks(index, heap))
  {
  }

  // ---------------------------------------------------------------------------
  // What a successful load establishes

  /** A file loadDatabase accepts: a prefix, unique series prefixes and
      container IDs, parents that exist, and no container inside itself. */
  ghost predicate Loadable(st: Stored)
  {
    && st.prefix != ""
    && Distinct(Prefixes(st.series))
    && Distinct(Ids(st.prefix, st.containers))
    && (forall i :: 0 <= i < |st.containers| ==>
          st.containers[i].parent == "" || st.containers[i].parent in Ids(st.prefix, st.containers))
    && Acyclic(ParentLinks(IndexOf(Ids(st.prefix, st.containers)), HeapOf(st.containers)))
  }

  lemma IndexedRefs(cs: seq<Container>)
    ensures RefsOk(Refs(|cs|), HeapOf(cs))
  {
  }

  lemma IndexedIndex(prefix: string, cs: seq<Container>, ids: seq<string>)
    requires ids == Ids(prefix, cs) && Distinct(ids)
    ensures IndexOk(prefix, Refs(|cs|), HeapOf(cs), IndexOf(ids))
  {
    var rs, heap, index := Refs(|cs|), HeapOf(cs), IndexOf(ids);
    forall id | id in index ensures index[id] in rs {
      assert rs[index[id]] == index[id];
    }
  }

  lemma IndexedParents(prefix: string, cs: seq<Container>, ids: seq<string>)
    requires ids == Ids(prefix, cs) && Distinct(ids)
    requires forall i :: 0 <= i < |cs| ==> cs[i].parent == "" || cs[i].parent in ids
    ensures ParentsOk(Refs(|cs|), HeapOf(cs), IndexOf(ids))
  {
  }

  lemma IndexedListed(cs: seq<Container>, key: Container -> string)
    ensures Listed(Refs(|cs|), HeapOf(cs), Group(cs, key), key)
  {
    var rs, heap, g := Refs(|cs|), HeapOf(cs), Group(cs, key);
    forall r | r in rs && r in heap ensures r in Get(g, key(heap[r])) {
      assert key(cs[r]) in g;
    }
  }

  lemma IndexedOnlyListed(cs: seq<Container>, key: Container -> string)
    ensures OnlyListed(Refs(|cs|), HeapOf(cs), Group(cs, key), key)
  {
    var rs, g := Refs(|cs|), Group(cs, key);
    forall k, r | k in g && r in g[k] ensures r in rs {
      assert rs[r] == r;
    }
  }

  lemma IndexedSeries(ss: seq<Series>)
    requires Distinct(Prefixes(ss))
    ensures SeriesOk(Prefixes(ss), SeriesIndex(ss))
  {
  }

  lemma IndexedValid(st: Stored)
    requires Loadable(st)
    ensures Valid(Indexed(st, Ids(st.prefix, st.containers)))
  {
    var cs, ids := st.containers, Ids(st.prefix, st.containers);
    IndexedRefs(cs);
    IndexedIndex(st.prefix, cs, ids);
    IndexedParents(st.prefix, cs, ids);
    IndexedListed(cs, ParentOf);
    IndexedOnlyListed(cs, ParentOf);
    IndexedListed(cs, SeriesOf);
    IndexedOnlyListed(cs, SeriesOf);
    IndexedSeries(st.series);
  }

  /** loadDatabase succeeds exactly on the files that pass every check, and
      what it builds satisfies the invariant every operation keeps. */
  lemma LoadOk(st: Stored)
    ensures Load(st).Ok? <==> Loadable(st)
    ensures Load(st).Ok? ==> Valid(Load(st).value)
    ensures Load(st).Ok? ==> Load(st).value == Indexed(st, Ids(st.prefix, st.containers))
  {
    if st.prefix != "" && Distinct(Prefixes(st.series)) && Distinct(Ids(st.prefix, st.containers)) {
      var ids := Ids(st.prefix, st.containers);
      assert Load(st) == LoadLinked(st, ids);
      if forall i :: 0 <= i < |ids| ==> st.containers[i].parent == "" || st.containers[i].parent in ids {
        assert Load(st) == LoadAcyclic(st, ids);
        if Loadable(st) {
          IndexedValid(st);
        }
      }
    }
  }

  // ---------------------------------------------------------------------------
  // Writing the database back

  /** The containers in list order, as dbCommit writes db.Containers. */
  function Listing(containers: seq<Ref>, heap: map<Ref, Container>): (cs: seq<Container>)
    requires forall r :: r in containers ==> r in heap
    ensures |cs| == |containers| && forall i :: 0 <= i < |cs| ==> cs[i] == heap[containers[i]]
  {
    seq(|containers|, i requires 0 <= i < |containers| => heap[containers[i]])
  }

  /** The series in list order, as dbCommit writes db.Series. */
  function SeriesListing(series: seq<string>, index: map<string, Series>): (ss: seq<Series>)
    requires forall p :: p in series ==> p in index
    ensures |ss| == |series| && forall i :: 0 <= i < |ss| ==> ss[i] == index[series[i]]
  {
    seq(|series|, i requires 0 <= i < |series| => index[series[i]])
  }

  /** Each saved series carries the prefix it was listed under. */
  lemma SavedPrefixes(series: seq<string>, index: map<string, Series>)
    requires SeriesOk(series, index)
    ensures Prefixes(SeriesListing(series, index)) == series
  {
  }

  /** The file dbCommit writes. */
  function Save(db: Db): (st: Stored)
    requires forall p :: p in db.series ==> p in db.indexSeries
    requires forall r :: r in db.store.containers ==> r in db.store.heap
    ensures st.prefix == db.prefix && st.bdfScale == db.bdfScale
    ensures st.series == SeriesListing(db.series, db.indexSeries)
    ensures st.containers == Listing(db.store.containers, db.store.heap)
  {
    Stored(db.prefix,
           SeriesListing(db.series, db.indexSeries),
           Listing(db.store.containers, db.store.heap),
           db.bdfScale)
  }

  /** The saved containers' IDs are the indexed IDs, each once. */
  lemma SavedIds(prefix: string, containers: seq<Ref>, heap: map<Ref, Container>, index: map<string, Ref>)
    requires RefsOk(containers, heap) && IndexOk(prefix, containers, heap, index)
    ensures var ids := Ids(prefix, Listing(containers, heap));
      && Distinct(ids)
      && (forall id :: id in ids <==> id in index)
      && (forall i :: 0 <= i < |ids| ==> index[ids[i]] == containers[i])
  {
    var ids := Ids(prefix, Listing(containers, heap));
    forall i | 0 <= i < |ids| ensures ids[i] in index && index[ids[i]] == containers[i] {
      assert containers[i] in containers;
    }
    forall id | id in index ensures id in ids {
      var i :| 0 <= i < |containers| && containers[i] == index[id];
      assert ids[i] == id;
    }
  }

  lemma SavedLinkValues(prefix: string, containers: seq<Ref>, heap: map<Ref, Container>, index: map<string, Ref>)
    requires RefsOk(containers, heap) && IndexOk(prefix, containers, heap, index)
    requires Distinct(Ids(prefix, Listing(containers, heap)))
    ensures var cs := Listing(containers, heap);
      var a, b := ParentLinks(IndexOf(Ids(prefix, cs)), HeapOf(cs)), ParentLinks(index, heap);
      forall id :: id in a ==> id in b && a[id] == b[id]
  {
    var cs := Listing(containers, heap);
    var ids := Ids(prefix, cs);
    SavedIds(prefix, containers, heap, index);
  }

  lemma SavedLinkKeys(prefix: string, containers: seq<Ref>, heap: map<Ref, Container>, index: map<string, Ref>)
    requires RefsOk(containers, heap) && IndexOk(prefix, containers, heap, index)
    requires Distinct(Ids(prefix, Listing(containers, heap)))
    ensures var cs := Listing(containers, heap);
      forall id :: id in ParentLinks(index, heap) ==> id in ParentLinks(IndexOf(Ids(prefix, cs)), HeapOf(cs))
  {
    SavedIds(prefix, containers, heap, index);
  }

  /** The parent links seen by the loader are the ones the database had. */
  lemma SavedLinks(prefix: string, containers: seq<Ref>, heap: map<Ref, Container>, index: map<string, Ref>)
    requires RefsOk(containers, heap) && IndexOk(prefix, containers, heap, index)
    ensures var ids := Ids(prefix, Listing(containers, heap));
      Distinct(ids) && ParentLinks(IndexOf(ids), HeapOf(Listing(containers, heap))) == ParentLinks(index, heap)
  {
    SavedIds(prefix, containers, heap, index);
    SavedLinkKeys(prefix, containers, heap, index);
    SavedLinkValues(prefix, containers, heap, index);
  }

  /** Every saved parent is a saved ID. */
  lemma SavedParents(prefix: string, containers: seq<Ref>, heap: map<Ref, Container>, index: map<string, Ref>)
    requires RefsOk(containers, heap) && IndexOk(prefix, containers, heap, index)
    requires ParentsOk(containers, heap, index)
    ensures var cs := Listing(containers, heap);
      forall i :: 0 <= i < |cs| ==> cs[i].parent == "" || cs[i].parent in Ids(prefix, cs)
  {
    var cs := Listing(containers, heap);
    SavedIds(prefix, containers, heap, index);
    forall i | 0 <= i < |cs| ensures cs[i].parent == "" || cs[i].parent in Ids(prefix, cs) {
      assert containers[i] in containers;
    }
  }

  /** The parts of Valid that loadDatabase checks; the child and member
      lists it rebuilds. */
  ghost predicate Savable(db: Db)
  {
    && db.prefix != ""
    && SeriesOk(db.series, db.indexSeries)
    && RefsOk(db.store.containers, db.store.heap)
    && IndexOk(db.prefix, db.store.containers, db.store.heap, db.store.indexContainer)
    && ParentsOk(db.store.containers, db.store.heap, db.store.indexContainer)
    && Acyclic(ParentLinks(db.store.indexContainer, db.store.heap))
  }

  lemma ValidSavable(db: Db)
    requires Valid(db)
    ensures Savable(db)
  {
  }

  lemma SavedLoadable(db: Db)
    requires Savable(db)
    ensures Loadable(Save(db))
  {
    var s := db.store;
    SavedPrefixes(db.series, db.indexSeries);
    SavedIds(db.prefix, s.containers, s.heap, s.indexContainer);
    SavedLinks(db.prefix, s.containers, s.heap, s.indexContainer);
    SavedParents(db.prefix, s.containers, s.heap, s.indexContainer);
  }

  /** Reindexing the saved containers finds each ID's container again. */
  lemma SavedIndex(prefix: string, containers: seq<Ref>, heap: map<Ref, Container>, index: map<string, Ref>)
    requires RefsOk(containers, heap) && IndexOk(prefix, containers, heap, index)
    ensures var cs := Listing(containers, heap);
      var ids := Ids(prefix, cs);
      && Distinct(ids)
      && (forall id :: id in IndexOf(ids) <==> id in index)
      && (forall id :: id in IndexOf(ids) ==> HeapOf(cs)[IndexOf(ids)[id]] == heap[index[id]])
  {
    SavedIds(prefix, containers, heap, index);
  }

  /** The indexes a successful load builds. */
  lemma LoadIndexes(st: Stored)
    requires Loadable(st)
    ensures Load(st).Ok?
    ensures Load(st).value.prefix == st.prefix && Load(st).value.series == Prefixes(st.series)
    ensures Load(st).value.store.indexContainer == IndexOf(Ids(st.prefix, st.containers))
    ensures Load(st).value.store.heap == HeapOf(st.containers)
  {
    LoadOk(st);
  }

  lemma SavedSeriesLoad(db: Db)
    requires Savable(db)
    ensures Load(Save(db)).Ok?
    ensures Load(Save(db)).value.prefix == db.prefix && Load(Save(db)).value.series == db.series
  {
    SavedLoadable(db);
    LoadIndexes(Save(db));
    SavedPrefixes(db.series, db.indexSeries);
  }

  lemma SavedContainersLoad(db: Db)
    requires Savable(db)
    ensures Load(Save(db)).Ok?
    ensures var loaded := Load(Save(db)).value.store;
      && (forall id :: id in loaded.indexContainer <==> id in db.store.indexContainer)
      && (forall id :: id in loaded.indexContainer ==>
            loaded.heap[loaded.indexContainer[id]] == db.store.heap[db.store.indexContainer[id]])
  {
    SavedLoadable(db);
    LoadIndexes(Save(db));
    SavedIndex(db.prefix, db.store.containers, db.store.heap, db.store.indexContainer);
  }

  /** What dbCommit writes from a valid database loads back: the same
      prefix and series, and under every ID the same container. Only the
      parts of validity the loader checks are needed. */
  lemma SavedLoads(db: Db)
    requires Savable(db)
    ensures Load(Save(db)).Ok?
    ensures Load(Save(db)).value.prefix == db.prefix && Load(Save(db)).value.series == db.series
    ensures var loaded := Load(Save(db)).value.store;
      && (forall id :: id in loaded.indexContainer <==> id in db.store.indexContainer)
      && (forall id :: id in loaded.indexContainer ==>
            loaded.heap[loaded.indexContainer[id]] == db.store.heap[db.store.indexContainer[id]])
  {
    SavedSeriesLoad(db);
    SavedContainersLoad(db);
  }
}

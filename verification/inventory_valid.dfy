/** The container operations keep the database invariant, and the update as
    written does not. */
module InventoryValid {
  import opened Wrappers
  import Decimal
  import opened ContainerTree
  import opened Inventory

  // ---------------------------------------------------------------------------
  // Facts about one index at a time

  lemma InsertRefs(cs: seq<Ref>, heap: map<Ref, Container>, r: Ref, c: Container)
    requires RefsOk(cs, heap) && r !in heap
    ensures RefsOk(cs + [r], heap[r := c])
  {
    AppendDistinct(cs, r);
  }

  lemma InsertIndex(prefix: string, cs: seq<Ref>, heap: map<Ref, Container>, index: map<string, Ref>,
                    r: Ref, c: Container)
    requires IndexOk(prefix, cs, heap, index) && r !in heap && Id(prefix, c) !in index
    ensures IndexOk(prefix, cs + [r], heap[r := c], index[Id(prefix, c) := r])
  {
  }

  lemma InsertParents(cs: seq<Ref>, heap: map<Ref, Container>, index: map<string, Ref>,
                      r: Ref, c: Container, id: string)
    requires ParentsOk(cs, heap, index) && (c.parent == "" || c.parent in index)
    ensures ParentsOk(cs + [r], heap[r := c], index[id := r])
  {
  }

  lemma InsertGroup(cs: seq<Ref>, heap: map<Ref, Container>, group: map<string, seq<Ref>>,
                    key: Container -> string, r: Ref, c: Container)
    requires GroupedBy(cs, heap, group, key) && r !in heap
    ensures GroupedBy(cs + [r], heap[r := c], group[key(c) := Get(group, key(c)) + [r]], key)
  {
  }

  lemma RelinkListed(cs: seq<Ref>, heap: map<Ref, Container>, group: map<string, seq<Ref>>,
                     key: Container -> string, r: Ref, c: Container, from: string, to: string)
    requires Listed(cs, heap, group, key) && r in heap && from == key(heap[r]) && to == key(c)
    ensures Listed(cs, heap[r := c], Relink(group, r, from, to), key)
  {
    var g' := Relink(group, r, from, to);
    forall x | x in cs && x in heap[r := c] ensures x in Get(g', key(heap[r := c][x])) {
      if x != r {
        var k := key(heap[x]);
        assert x in Get(group, k);
        if k == from {
          assert x in Without(Get(group, k), r);
        }
      }
    }
  }

  lemma RelinkOnlyListed(cs: seq<Ref>, heap: map<Ref, Container>, group: map<string, seq<Ref>>,
                         key: Container -> string, r: Ref, c: Container, from: string, to: string)
    requires OnlyListed(cs, heap, group, key) && r in cs && r in heap && from == key(heap[r]) && to == key(c)
    ensures OnlyListed(cs, heap[r := c], Relink(group, r, from, to), key)
  {
    var m1 := group[from := Without(Get(group, from), r)];
    var g' := m1[to := Get(m1, to) + [r]];
    forall k, x | k in g' && x in g'[k]
      ensures x in cs && x in heap[r := c] && key(heap[r := c][x]) == k
    {
      if x != r {
        if k == to {
          assert x in Get(m1, to);
        }
        if k == from {
          assert x in Get(group, from);
        } else {
          assert x in group[k];
        }
      }
    }
  }

  /** Moving `r` between two lists follows the change of its key. */
  lemma RelinkGroup(cs: seq<Ref>, heap: map<Ref, Container>, group: map<string, seq<Ref>>,
                    key: Container -> string, r: Ref, c: Container)
    requires GroupedBy(cs, heap, group, key) && r in cs && r in heap
    ensures GroupedBy(cs, heap[r := c], Relink(group, r, key(heap[r]), key(c)), key)
  {
    RelinkListed(cs, heap, group, key, r, c, key(heap[r]), key(c));
    RelinkOnlyListed(cs, heap, group, key, r, c, key(heap[r]), key(c));
  }

  lemma SameKeyGroup(cs: seq<Ref>, heap: map<Ref, Container>, group: map<string, seq<Ref>>,
                     key: Container -> string, r: Ref, c: Container)
    requires GroupedBy(cs, heap, group, key) && r in heap && key(c) == key(heap[r])
    ensures GroupedBy(cs, heap[r := c], group, key)
  {
    forall x | x in cs && x in heap[r := c] ensures x in Get(group, key(heap[r := c][x])) {
      assert x in Get(group, key(heap[x]));
    }
  }

  lemma RemoveRefs(cs: seq<Ref>, heap: map<Ref, Container>, r: Ref)
    requires RefsOk(cs, heap)
    ensures RefsOk(Without(cs, r), heap)
  {
    WithoutDistinct(cs, r);
  }

  lemma RemoveIndex(prefix: string, cs: seq<Ref>, heap: map<Ref, Container>, index: map<string, Ref>, r: Ref)
    requires IndexOk(prefix, cs, heap, index) && r in cs
    ensures IndexOk(prefix, Without(cs, r), heap, index - {Id(prefix, heap[r])})
  {
  }

  lemma RemoveParents(cs: seq<Ref>, heap: map<Ref, Container>, index: map<string, Ref>,
                      children: map<string, seq<Ref>>, id: string, r: Ref)
    requires ParentsOk(cs, heap, index) && GroupedBy(cs, heap, children, ParentOf)
    requires |Get(children, id)| == 0
    ensures ParentsOk(Without(cs, r), heap, index - {id})
  {
    forall x | x in Without(cs, r) && x in heap
      ensures heap[x].parent == "" || heap[x].parent in index - {id}
    {
      assert x in Get(children, ParentOf(heap[x]));
    }
  }

  lemma RemoveListed(cs: seq<Ref>, heap: map<Ref, Container>, group: map<string, seq<Ref>>,
                     key: Container -> string, r: Ref, k0: string)
    requires Listed(cs, heap, group, key) && r in heap && k0 == key(heap[r])
    ensures Listed(Without(cs, r), heap, group[k0 := Without(Get(group, k0), r)], key)
  {
    var g' := group[k0 := Without(Get(group, k0), r)];
    forall x | x in Without(cs, r) && x in heap ensures x in Get(g', key(heap[x])) {
      var k := key(heap[x]);
      assert x in cs && x != r;
      assert x in Get(group, k);
      if k == k0 {
        assert x in Without(Get(group, k), r);
      }
    }
  }

  lemma RemoveOnlyListed(cs: seq<Ref>, heap: map<Ref, Container>, group: map<string, seq<Ref>>,
                         key: Container -> string, r: Ref, k0: string)
    requires OnlyListed(cs, heap, group, key) && r in heap && k0 == key(heap[r])
    ensures OnlyListed(Without(cs, r), heap, group[k0 := Without(Get(group, k0), r)], key)
  {
    var g' := group[k0 := Without(Get(group, k0), r)];
    forall k, x | k in g' && x in g'[k]
      ensures x in Without(cs, r) && x in heap && key(heap[x]) == k
    {
      if k == k0 {
        assert x in Get(group, k) && x != r;
      } else {
        assert x in group[k];
      }
    }
  }

  lemma RemoveGroup(cs: seq<Ref>, heap: map<Ref, Container>, group: map<string, seq<Ref>>,
                    key: Container -> string, r: Ref)
    requires GroupedBy(cs, heap, group, key) && r in heap
    ensures GroupedBy(Without(cs, r), heap, group[key(heap[r]) := Without(Get(group, key(heap[r])), r)], key)
  {
    RemoveListed(cs, heap, group, key, r, key(heap[r]));
    RemoveOnlyListed(cs, heap, group, key, r, key(heap[r]));
  }

  // ---------------------------------------------------------------------------
  // The parent links

  /** A parent's chain never comes back to its child. */
  lemma ParentNotBelow(links: ContainerTree.Links, id: string, j: nat)
    requires Acyclic(links) && id in links && links[id] != ""
    ensures Up(links, links[id], j) != Some(id)
  {
    assert Up(links, id, j + 1) == Up(links, links[id], j);
  }

  /** No chain in the links reaches an ID the links do not hold. */
  lemma ChainMisses(links: ContainerTree.Links, p: string, id: string)
    requires ParentsIn(links) && p in links && id !in links
    ensures forall j :: Up(links, p, j) != Some(id)
  {
    forall j | Up(links, p, j).Some? ensures Up(links, p, j) != Some(id) {
      UpIn(links, p, j);
    }
  }

  /** One container `r` takes the ID `newId` (maybe its old one) and the
      parent of `c`; when no old chain from that parent reaches `newId`, the
      links stay acyclic. */
  lemma RelinkAcyclic(index: map<string, Ref>, heap: map<Ref, Container>,
                      index': map<string, Ref>, heap': map<Ref, Container>, newId: string, r: Ref)
    requires Acyclic(ParentLinks(index, heap)) && ParentsIn(ParentLinks(index', heap'))
    requires forall id :: id in index' && id != newId ==> id in index && index'[id] == index[id] && index[id] != r
    requires forall x :: x != r && x in heap' ==> x in heap && heap'[x] == heap[x]
    requires newId in index' ==> index'[newId] == r && r in heap'
    requires newId in index' ==> var p := heap'[r].parent;
      p == "" || forall j :: Up(ParentLinks(index, heap), p, j) != Some(newId)
    ensures Acyclic(ParentLinks(index', heap'))
  {
    var links, links' := ParentLinks(index, heap), ParentLinks(index', heap');
    var p := if newId in index' then heap'[r].parent else "";
    AcyclicAfterRelink(links, links', newId, p);
  }

  // ---------------------------------------------------------------------------
  // The operations

  lemma InsertAcyclic(prefix: string, s: Store, r: Ref, c: Container)
    requires Walkable(s) && r !in s.heap && Id(prefix, c) !in s.indexContainer
    requires c.parent == "" || c.parent in s.indexContainer
    requires ParentsIn(ParentLinks(s.indexContainer[Id(prefix, c) := r], s.heap[r := c]))
    ensures Acyclic(ParentLinks(s.indexContainer[Id(prefix, c) := r], s.heap[r := c]))
  {
    var id := Id(prefix, c);
    if c.parent != "" {
      ChainMisses(ParentLinks(s.indexContainer, s.heap), c.parent, id);
    }
    RelinkAcyclic(s.indexContainer, s.heap, s.indexContainer[id := r], s.heap[r := c], id, r);
  }

  /** Appending a container with a free ID and an existing parent keeps the store well formed. */
  lemma InsertValid(prefix: string, s: Store, r: Ref, c: Container)
    requires StoreOk(prefix, s) && r !in s.heap && Id(prefix, c) !in s.indexContainer
    requires c.parent == "" || c.parent in s.indexContainer
    ensures StoreOk(prefix, Insert(prefix, s, r, c))
  {
    var s' := Insert(prefix, s, r, c);
    InsertRefs(s.containers, s.heap, r, c);
    InsertIndex(prefix, s.containers, s.heap, s.indexContainer, r, c);
    InsertParents(s.containers, s.heap, s.indexContainer, r, c, Id(prefix, c));
    InsertGroup(s.containers, s.heap, s.indexChildren, ParentOf, r, c);
    InsertGroup(s.containers, s.heap, s.indexMembers, SeriesOf, r, c);
    LinksParents(prefix, s);
    LinksParents(prefix, s');
    InsertAcyclic(prefix, s, r, c);
  }

  lemma ContainerCreateValid(db: Db, r: Ref, c: Container)
    requires Valid(db) && r !in db.store.heap
    ensures Valid(ContainerCreate(db, r, c).db)
  {
    var o := ContainerCreate(db, r, c);
    if c.series in db.indexSeries && c.number == 0 {
      CounterKeepsSeries(db.series, db.indexSeries, c.series, o.c.number);
    }
    if o.err.None? {
      InsertValid(db.prefix, db.store, r, o.c);
    }
  }
  lemma RemoveAcyclic(prefix: string, s: Store, r: Ref)
    requires Walkable(s) && r in s.heap && IndexOk(prefix, s.containers, s.heap, s.indexContainer)
    requires ParentsIn(ParentLinks(s.indexContainer - {Id(prefix, s.heap[r])}, s.heap))
    ensures Acyclic(ParentLinks(s.indexContainer - {Id(prefix, s.heap[r])}, s.heap))
  {
    var id := Id(prefix, s.heap[r]);
    RelinkAcyclic(s.indexContainer, s.heap, s.indexContainer - {id}, s.heap, id, r);
  }

  /** Removing a container without children keeps the store well formed. */
  lemma RemoveValid(prefix: string, s: Store, r: Ref)
    requires StoreOk(prefix, s) && r in s.containers
    requires |Get(s.indexChildren, Id(prefix, s.heap[r]))| == 0
    ensures var c := s.heap[r]; var id := Id(prefix, c);
      StoreOk(prefix, Store(Without(s.containers, r), s.heap,
                            s.indexMembers[c.series := Without(Get(s.indexMembers, c.series), r)],
                            s.indexContainer - {id},
                            s.indexChildren[c.parent := Without(Get(s.indexChildren, c.parent), r)] - {id}))
  {
    var c := s.heap[r];
    var id := Id(prefix, c);
    var children := s.indexChildren[c.parent := Without(Get(s.indexChildren, c.parent), r)];
    var s' := Store(Without(s.containers, r), s.heap,
                    s.indexMembers[c.series := Without(Get(s.indexMembers, c.series), r)],
                    s.indexContainer - {id}, children - {id});
    RemoveRefs(s.containers, s.heap, r);
    RemoveIndex(prefix, s.containers, s.heap, s.indexContainer, r);
    RemoveParents(s.containers, s.heap, s.indexContainer, s.indexChildren, id, r);
    RemoveGroup(s.containers, s.heap, s.indexMembers, SeriesOf, r);
    RemoveGroup(s.containers, s.heap, s.indexChildren, ParentOf, r);
    assert r in Get(s.indexChildren, ParentOf(c));
    DropEmptyGroup(Without(s.containers, r), s.heap, children, ParentOf, id);
    LinksParents(prefix, s);
    LinksParents(prefix, s');
    RemoveAcyclic(prefix, s, r);
  }

  lemma ContainerRemoveValid(db: Db, r: Ref)
    requires Valid(db) && r in db.store.containers
    ensures Valid(ContainerRemove(db, r).db)
  {
    if ContainerRemove(db, r).err.None? {
      RemoveValid(db.prefix, db.store, r);
    }
  }

  // ---------------------------------------------------------------------------
  // Updating a container

  lemma UpdateIndex(prefix: string, cs: seq<Ref>, heap: map<Ref, Container>, index: map<string, Ref>,
                    r: Ref, u: Container)
    requires IndexOk(prefix, cs, heap, index) && r in cs
    requires Id(prefix, u) in index ==> Id(prefix, u) == Id(prefix, heap[r])
    ensures IndexOk(prefix, cs, heap[r := u], (index - {Id(prefix, heap[r])})[Id(prefix, u) := r])
  {
  }

  lemma UpdateParents(cs: seq<Ref>, heap: map<Ref, Container>, index: map<string, Ref>,
                      children: map<string, seq<Ref>>, r: Ref, u: Container, oldId: string, newId: string)
    requires ParentsOk(cs, heap, index) && Listed(cs, heap, children, ParentOf)
    requires u.parent == "" || u.parent in index
    requires u.parent != oldId
    requires newId != oldId ==> |Get(children, oldId)| == 0
    ensures ParentsOk(cs, heap[r := u], (index - {oldId})[newId := r])
  {
    forall x | x in cs && x in heap[r := u] && x != r
      ensures heap[x].parent == "" || heap[x].parent in (index - {oldId})[newId := r]
    {
      assert x in Get(children, ParentOf(heap[x]));
    }
  }

  lemma UpdateAcyclic(prefix: string, s: Store, r: Ref, u: Container)
    requires Walkable(s) && IndexOk(prefix, s.containers, s.heap, s.indexContainer) && r in s.containers
    requires ParentsIn(ParentLinks(Rekey(prefix, s, r, u).indexContainer, s.heap[r := u]))
    requires u.parent == "" || forall j :: Up(ParentLinks(s.indexContainer, s.heap), u.parent, j) != Some(Id(prefix, u))
    ensures Acyclic(ParentLinks(Rekey(prefix, s, r, u).indexContainer, s.heap[r := u]))
  {
    RelinkAcyclic(s.indexContainer, s.heap, Rekey(prefix, s, r, u).indexContainer, s.heap[r := u], Id(prefix, u), r);
  }

  /** The new parent's chain misses the container's new ID. */
  lemma NewParentClear(prefix: string, s: Store, r: Ref, u: Container)
    requires Walkable(s) && IndexOk(prefix, s.containers, s.heap, s.indexContainer) && r in s.containers
    requires u.parent == "" || u.parent in s.indexContainer
    requires Id(prefix, u) in s.indexContainer ==> Id(prefix, u) == Id(prefix, s.heap[r])
    requires u.parent != s.heap[r].parent && u.parent != "" ==>
      forall j :: Up(ParentLinks(s.indexContainer, s.heap), u.parent, j) != Some(Id(prefix, s.heap[r]))
    ensures u.parent == "" || forall j :: Up(ParentLinks(s.indexContainer, s.heap), u.parent, j) != Some(Id(prefix, u))
  {
    var links := ParentLinks(s.indexContainer, s.heap);
    var oldId, newId := Id(prefix, s.heap[r]), Id(prefix, u);
    if u.parent != "" {
      if newId != oldId {
        ChainMisses(links, u.parent, newId);
      } else if u.parent == s.heap[r].parent {
        assert links[oldId] == u.parent;
        forall j ensures Up(links, u.parent, j) != Some(oldId) {
          ParentNotBelow(links, oldId, j);
        }
      }
    }
  }

  /** An update that passes the intended checks keeps the store well formed. */
  lemma RekeyValid(prefix: string, s: Store, r: Ref, u: Container)
    requires StoreOk(prefix, s) && r in s.containers
    requires u.parent == "" || u.parent in s.indexContainer
    requires Id(prefix, u) != Id(prefix, s.heap[r]) ==> |Get(s.indexChildren, Id(prefix, s.heap[r]))| == 0
    requires Id(prefix, u) in s.indexContainer ==> Id(prefix, u) == Id(prefix, s.heap[r])
    requires u.parent != s.heap[r].parent && u.parent != "" ==>
      forall j :: Up(ParentLinks(s.indexContainer, s.heap), u.parent, j) != Some(Id(prefix, s.heap[r]))
    ensures StoreOk(prefix, Rekey(prefix, s, r, u))
  {
    var c := s.heap[r];
    var oldId, newId := Id(prefix, c), Id(prefix, u);
    var s' := Rekey(prefix, s, r, u);
    LinksParents(prefix, s);
    var links := ParentLinks(s.indexContainer, s.heap);
    assert links[oldId] == c.parent;
    if u.parent != c.parent {
      if u.parent != "" {
        assert Up(links, u.parent, 0) == Some(u.parent);
      }
      RelinkGroup(s.containers, s.heap, s.indexChildren, ParentOf, r, u);
    } else {
      SameKeyGroup(s.containers, s.heap, s.indexChildren, ParentOf, r, u);
      if c.parent != "" {
        ParentNotBelow(links, oldId, 0);
      }
    }
    if u.series != c.series {
      RelinkGroup(s.containers, s.heap, s.indexMembers, SeriesOf, r, u);
    } else {
      SameKeyGroup(s.containers, s.heap, s.indexMembers, SeriesOf, r, u);
    }
    UpdateIndex(prefix, s.containers, s.heap, s.indexContainer, r, u);
    UpdateParents(s.containers, s.heap, s.indexContainer, s.indexChildren, r, u, oldId, newId);
    LinksParents(prefix, s');
    NewParentClear(prefix, s, r, u);
    UpdateAcyclic(prefix, s, r, u);
  }

  lemma ContainerUpdateValid(db: Db, r: Ref, updated: Container)
    requires Valid(db) && r in db.store.containers
    ensures Walkable(db.store) && WalksEnd(db.store)
    ensures Valid(ContainerUpdate(db, r, updated).db)
  {
    ValidWalkable(db);
    var s, c := db.store, db.store.heap[r];
    var o := ContainerUpdate(db, r, updated);
    if o.err.None? {
      UpdateRefusalMeans(db, r, updated, Id(db.prefix, c));
      RekeyValid(db.prefix, s, r, updated);
    }
  }

  // ---------------------------------------------------------------------------
  // The update as written

  /** Moving a childless container to another series, as dbContainerUpdate
      does it, leaves the container missing from indexContainer under its new
      ID, so the database no longer satisfies its invariant. */
  lemma AsWrittenLosesIndex(db: Db, r: Ref, updated: Container)
    requires Valid(db) && r in db.store.containers
    requires Walkable(db.store) && WalksEnd(db.store) && ContainerUpdateAsWritten(db, r, updated).err.None?
    requires updated.series != db.store.heap[r].series
    ensures var o := ContainerUpdateAsWritten(db, r, updated);
      Id(db.prefix, updated) !in o.db.store.indexContainer && !Valid(o.db)
  {
    var c := db.store.heap[r];
    UpdateRefusalMeans(db, r, updated, Id(db.prefix, updated));
    if Id(db.prefix, updated) == Id(db.prefix, c) {
      SeriesApart(db.prefix, updated, c);
    }
    var o := ContainerUpdateAsWritten(db, r, updated);
    assert r in o.db.store.containers && o.db.store.heap[r] == updated;
  }

  /** Moving a childless container to another series and under its own
      current ID: the walk of dbContainerUpdate looks for the updated ID, so
      it passes, and the container ends up as its own parent through the
      stale index entry. The intended walk looks for the current ID and
      refuses. */
  lemma AsWrittenAcceptsOwnIdAsParent(db: Db, r: Ref, updated: Container)
    requires Valid(db) && r in db.store.containers
    requires var c := db.store.heap[r];
      && updated.parent == Id(db.prefix, c)
      && updated.series != c.series && updated.series in db.indexSeries
      && updated.number == c.number
      && Id(db.prefix, updated) !in db.store.indexContainer
      && |Get(db.store.indexChildren, Id(db.prefix, c))| == 0
    ensures Walkable(db.store) && WalksEnd(db.store)
    ensures var o := ContainerUpdateAsWritten(db, r, updated);
      && o.err.None?
      && var links := ParentLinks(o.db.store.indexContainer, o.db.store.heap);
      && Id(db.prefix, db.store.heap[r]) in links
      && links[Id(db.prefix, db.store.heap[r])] == Id(db.prefix, db.store.heap[r])
      && !Acyclic(links)
    ensures ContainerUpdate(db, r, updated).err == Some(WouldContainItself)
  {
    ValidWalkable(db);
    var s, c := db.store, db.store.heap[r];
    var oldId := Id(db.prefix, c);
    var links := ParentLinks(s.indexContainer, s.heap);
    assert oldId in s.indexContainer && s.indexContainer[oldId] == r;
    assert links[oldId] == c.parent;
    assert Up(links, oldId, 1) != Some(oldId);
    OwnIdRefusals(db, r, updated);
    SelfLoopAfter(db, r, updated);
  }

  /** The checks of an update that moves a container to another series under
      its own current ID: all pass when the walk looks for the updated ID,
      and the walk refuses when it looks for the current one. */
  lemma OwnIdRefusals(db: Db, r: Ref, updated: Container)
    requires Walkable(db.store) && WalksEnd(db.store) && r in db.store.heap
    requires var c := db.store.heap[r];
      var oldId := Id(db.prefix, c);
      && oldId in db.store.indexContainer && db.store.indexContainer[oldId] == r
      && c.parent != oldId
      && updated.parent == oldId
      && updated.series != c.series && updated.series in db.indexSeries
      && updated.number == c.number
      && Id(db.prefix, updated) !in db.store.indexContainer
      && |Get(db.store.indexChildren, oldId)| == 0
    ensures UpdateRefusal(db, r, updated, Id(db.prefix, updated)).None?
    ensures UpdateRefusal(db, r, updated, Id(db.prefix, db.store.heap[r])) == Some(WouldContainItself)
  {
    var s := db.store;
    var oldId, newId := Id(db.prefix, s.heap[r]), Id(db.prefix, updated);
    var links := ParentLinks(s.indexContainer, s.heap);
    assert oldId in links;
    forall j ensures Up(links, oldId, j) != Some(newId) {
      if Up(links, oldId, j) == Some(newId) {
        UpIn(links, oldId, j);
      }
    }
    WouldContainMeans(links, oldId, newId);
    assert Up(links, oldId, 0) == Some(oldId);
    WouldContainMeans(links, oldId, oldId);
  }

  /** After the update as written, the stale index entry for the old ID
      points at a container whose parent is that ID. */
  lemma SelfLoopAfter(db: Db, r: Ref, updated: Container)
    requires Walkable(db.store) && WalksEnd(db.store) && r in db.store.heap
    requires var oldId := Id(db.prefix, db.store.heap[r]);
      && oldId in db.store.indexContainer && db.store.indexContainer[oldId] == r
      && updated.parent == oldId
    requires ContainerUpdateAsWritten(db, r, updated).err.None?
    ensures var o := ContainerUpdateAsWritten(db, r, updated);
      var links := ParentLinks(o.db.store.indexContainer, o.db.store.heap);
      && Id(db.prefix, db.store.heap[r]) in links
      && links[Id(db.prefix, db.store.heap[r])] == Id(db.prefix, db.store.heap[r])
      && !Acyclic(links)
  {
    var oldId := Id(db.prefix, db.store.heap[r]);
    var o := ContainerUpdateAsWritten(db, r, updated);
    var links := ParentLinks(o.db.store.indexContainer, o.db.store.heap);
    assert oldId in links && links[oldId] == oldId;
    assert Up(links, oldId, 1) == Some(oldId);
  }

  /** After the self-parent update as written, an update of another
      container that moves it under the old ID runs a walk that stays on the
      old ID at every step and never meets the new ID: dbContainerUpdate
      never returns, so the update lies outside ContainerUpdateAsWritten's
      domain. */
  lemma AsWrittenThenHangs(db: Db, r: Ref, updated: Container, r2: Ref, u2: Container)
    requires Valid(db) && WalksEnd(db.store) && r in db.store.containers
    requires var c := db.store.heap[r];
      && updated.parent == Id(db.prefix, c)
      && updated.series != c.series && updated.series in db.indexSeries
      && updated.number == c.number
      && Id(db.prefix, updated) !in db.store.indexContainer
      && |Get(db.store.indexChildren, Id(db.prefix, c))| == 0
    requires var o := ContainerUpdateAsWritten(db, r, updated);
      && r2 in o.db.store.heap && WalkRuns(o.db, r2, u2)
      && u2.parent == Id(db.prefix, db.store.heap[r])
      && Id(db.prefix, u2) != u2.parent
    ensures var o := ContainerUpdateAsWritten(db, r, updated);
      var links := ParentLinks(o.db.store.indexContainer, o.db.store.heap);
      && (forall n :: Up(links, u2.parent, n) == Some(u2.parent))
      && !UpdateEnds(o.db, r2, u2, Id(db.prefix, u2))
  {
    AsWrittenAcceptsOwnIdAsParent(db, r, updated);
    var o := ContainerUpdateAsWritten(db, r, updated);
    var links := ParentLinks(o.db.store.indexContainer, o.db.store.heap);
    assert o.db.prefix == db.prefix;
    SelfLoopNeverEnds(links, u2.parent, Id(db.prefix, u2));
    SelfLoopHangs(o.db, r2, u2);
  }

  /** An empty database with prefix A. */
  function Empty(): Db
  {
    Db("A", [], map[], Store([], map[], map[], map[], map[]), 1)
  }

  /** Empty, then series B and C, then container B1 at the top level. */
  function Example(): Db
  {
    var db1 := SeriesCreate(Empty(), Series("B", "", 0)).db;
    var db2 := SeriesCreate(db1, Series("C", "", 0)).db;
    ContainerCreate(db2, 0, Container("B", 0, "", "")).db
  }

  lemma ExampleValid()
    ensures Valid(Example())
  {
    var db0 := Empty();
    assert ParentLinks(db0.store.indexContainer, db0.store.heap) == map[];
    SeriesCreateValid(db0, Series("B", "", 0));
    var db1 := SeriesCreate(db0, Series("B", "", 0)).db;
    SeriesCreateValid(db1, Series("C", "", 0));
    var db2 := SeriesCreate(db1, Series("C", "", 0)).db;
    ContainerCreateValid(db2, 0, Container("B", 0, "", ""));
  }

  /** Example holds B1 under reference 0, and series C exists. */
  lemma ExampleShape()
    ensures var b1 := Container("B", 1, "", "");
      && Example().prefix == "A" && "C" in Example().indexSeries
      && Example().store == Store([0], map[0 := b1], map["B" := [0]], map[Id("A", b1) := 0], map["" := [0]])
  {
    var db1 := SeriesCreate(Empty(), Series("B", "", 0)).db;
    var db2 := SeriesCreate(db1, Series("C", "", 0)).db;
    assert db2.prefix == "A" && "C" in db2.indexSeries;
    assert db2.store == Store([], map[], map[], map[], map[]);
    assert db2.indexSeries["B"].counter == 0;
    var taken: set<string> := {};
    assert db2.store.indexContainer.Keys == taken;
    assert FreeAfter(taken, "AB", 0) == 1;
    var b1 := Container("B", 1, "", "");
    var o := ContainerCreate(db2, 0, Container("B", 0, "", ""));
    assert o.c == b1;
    assert o.err.None?;
    var st := o.db.store;
    assert st == Insert("A", db2.store, 0, b1);
    assert st.containers == [0];
    assert st.heap == map[0 := b1];
    assert Get(db2.store.indexMembers, "B") == [] && Get(db2.store.indexChildren, "") == [];
    assert st.indexMembers == map["B" := [0]];
    assert st.indexContainer == map[Id("A", b1) := 0];
    assert st.indexChildren == map["" := [0]];
  }

  lemma ExampleWalkable()
    ensures Walkable(Example().store) && WalksEnd(Example().store)
  {
    ExampleValid();
    ValidWalkable(Example());
  }

  /** The IDs of B1 and C1 differ, and neither is the top level. */
  lemma ExampleIds()
    ensures Id("A", Container("B", 1, "", "")) != Id("A", Container("C", 1, "", ""))
    ensures Id("A", Container("B", 1, "", "")) != ""
  {
    assert Id("A", Container("B", 1, "", ""))[1] == 'B';
    assert Id("A", Container("C", 1, "", ""))[1] == 'C';
  }

  /** The store of Example after B1 is rewritten in place as `c`. */
  function StaleStore(c: Container): Store
  {
    Store([0], map[0 := c], map["B" := [0]], map[Id("A", Container("B", 1, "", "")) := 0], map["" := [0]])
  }

  lemma AsWrittenOnExample()
    ensures Walkable(Example().store) && WalksEnd(Example().store)
    ensures var o1 := ContainerUpdateAsWritten(Example(), 0, Container("C", 1, "", ""));
      && o1.err.None? && o1.db.prefix == "A" && "C" in o1.db.indexSeries
      && o1.db.store == StaleStore(Container("C", 1, "", ""))
  {
    ExampleWalkable();
    ExampleShape();
    ExampleIds();
  }

  lemma CreateOverStale(db: Db)
    requires db.prefix == "A" && "C" in db.indexSeries && db.store == StaleStore(Container("C", 1, "", ""))
    ensures var o2 := ContainerCreate(db, 1, Container("C", 1, "", ""));
      && o2.err.None?
      && o2.db.store.containers == [0, 1]
      && Id("A", o2.db.store.heap[0]) == Id("A", o2.db.store.heap[1])
  {
    ExampleIds();
  }

  /** Moving B1 to series C as written succeeds, and creating C1 afterwards
      succeeds too: two containers then carry the same ID. */
  lemma DuplicateIdAfterSeriesChange()
    ensures Valid(Example()) && Walkable(Example().store) && WalksEnd(Example().store)
    ensures var o1 := ContainerUpdateAsWritten(Example(), 0, Container("C", 1, "", ""));
      && o1.err.None?
      && 1 !in o1.db.store.heap
      && var o2 := ContainerCreate(o1.db, 1, Container("C", 1, "", ""));
      && o2.err.None?
      && o2.db.store.containers == [0, 1]
      && Id("A", o2.db.store.heap[0]) == Id("A", o2.db.store.heap[1])
  {
    ExampleValid();
    AsWrittenOnExample();
    CreateOverStale(ContainerUpdateAsWritten(Example(), 0, Container("C", 1, "", "")).db);
  }

  /** The input that shows it: B1 moved to series C under AB1, its own ID. */
  lemma SelfParentOnExample()
    ensures Walkable(Example().store) && WalksEnd(Example().store)
    ensures var u := Container("C", 1, "AB1", "");
      && ContainerUpdateAsWritten(Example(), 0, u).err.None?
      && ContainerUpdateAsWritten(Example(), 0, u).db.store.heap[0].parent == "AB1"
      && ContainerUpdate(Example(), 0, u).err == Some(WouldContainItself)
  {
    ExampleWalkable();
    ExampleShape();
    ExampleIds();
    var db, b1, u := Example(), Container("B", 1, "", ""), Container("C", 1, "AB1", "");
    assert Id("A", b1) == "AB1";
    assert Id("A", u) == Id("A", Container("C", 1, "", ""));
    assert db.store.heap[0] == b1 && db.store.indexContainer == map["AB1" := 0];
    assert Get(db.store.indexChildren, "AB1") == [];
    OwnIdRefusals(db, 0, u);
  }

  /** The cyclic store left by SelfParentOnExample still takes updates whose
      walk does not run: rewriting the description of the moved container
      succeeds. */
  lemma UpdateAfterSelfLoopOnExample()
    ensures Walkable(Example().store) && WalksEnd(Example().store)
    ensures var db1 := ContainerUpdateAsWritten(Example(), 0, Container("C", 1, "AB1", "")).db;
      var u := Container("C", 1, "AB1", "kept");
      && 0 in db1.store.heap
      && !Acyclic(ParentLinks(db1.store.indexContainer, db1.store.heap))
      && UpdateEnds(db1, 0, u, Id("A", u))
      && ContainerUpdateAsWritten(db1, 0, u).err.None?
  {
    SelfParentOnExample();
    ExampleShape();
    ExampleIds();
    var db, u0 := Example(), Container("C", 1, "AB1", "");
    assert Id("A", Container("B", 1, "", "")) == "AB1";
    assert Id("A", u0) == Id("A", Container("C", 1, "", ""));
    var db1 := ContainerUpdateAsWritten(db, 0, u0).db;
    assert db1.store.indexContainer == map["AB1" := 0] && db1.store.heap == map[0 := u0];
    var links := ParentLinks(db1.store.indexContainer, db1.store.heap);
    assert links["AB1"] == "AB1";
    assert Up(links, "AB1", 1) == Some("AB1");
  }

  lemma RekeyOnExample()
    ensures Walkable(Example().store) && WalksEnd(Example().store)
    ensures var o1 := ContainerUpdate(Example(), 0, Container("C", 1, "", ""));
      && o1.err.None? && o1.db.prefix == "A" && "C" in o1.db.indexSeries
      && Id("A", Container("C", 1, "", "")) in o1.db.store.indexContainer && 1 !in o1.db.store.heap
  {
    ExampleWalkable();
    ExampleShape();
    ExampleIds();
  }

  /** The intended update moves the index entry along, so the same create is
      refused. */
  lemma NoDuplicateWhenRekeyed()
    ensures Valid(Example()) && Walkable(Example().store) && WalksEnd(Example().store)
    ensures var o1 := ContainerUpdate(Example(), 0, Container("C", 1, "", ""));
      && o1.err.None?
      && 1 !in o1.db.store.heap
      && ContainerCreate(o1.db, 1, Container("C", 1, "", "")).err == Some(ContainerAlreadyExists)
  {
    ExampleValid();
    RekeyOnExample();
  }
}

/** The parent links of the inventory's containers: each container ID mapped
    to the ID of the container it sits in, or to "" at the top level. The
    walks cmd/sklad/db.go makes along these links, and when relinking one
    container keeps the tree free of cycles. */
module ContainerTree {
  import opened Wrappers

  type Links = map<string, string>

  /** Every non-empty parent is itself a container. */
  predicate ParentsIn(links: Links)
  {
    forall id :: id in links && links[id] != "" ==> links[id] in links
  }

  /** The ancestor `n` levels above `id`, while the chain lasts. */
  function Up(links: Links, id: string, n: nat): Option<string>
    decreases n
  {
    if n == 0 then Some(id)
    else if id !in links || links[id] == "" then None
    else Up(links, links[id], n - 1)
  }

  /** No container is its own ancestor, at any level. */
  ghost predicate Acyclic(links: Links)
  {
    forall id, n :: id in links && 1 <= n ==> Up(links, id, n) != Some(id)
  }

  predicate Distinct<T(==)>(s: seq<T>)
  {
    forall i, j :: 0 <= i < j < |s| ==> s[i] != s[j]
  }

  // ---------------------------------------------------------------------------
  // Chains

  /** Going up a + b levels is going up a levels, then b more. */
  lemma {:induction false} UpCompose(links: Links, x: string, a: nat, b: nat)
    ensures Up(links, x, a + b)
      == if Up(links, x, a).Some? then Up(links, Up(links, x, a).value, b) else None
    decreases a
  {
    if a > 0 && x in links && links[x] != "" {
      UpCompose(links, links[x], a - 1, b);
    }
  }

  /** One level above an ancestor that is a container. */
  lemma UpStep(links: Links, x: string, k: nat, cur: string)
    requires Up(links, x, k) == Some(cur) && cur in links
    ensures Up(links, x, k + 1) == if links[cur] == "" then None else Some(links[cur])
  {
    UpCompose(links, x, k, 1);
  }

  /** Ancestors of a container are containers. */
  lemma {:induction false} UpIn(links: Links, x: string, n: nat)
    requires ParentsIn(links) && x in links && Up(links, x, n).Some?
    ensures Up(links, x, n).value in links
    decreases n
  {
    if n > 0 {
      UpIn(links, links[x], n - 1);
    }
  }

  /** A chain that reaches level n passes every level below it. */
  lemma UpPrefix(links: Links, x: string, j: nat, n: nat)
    requires j <= n && Up(links, x, n).Some?
    ensures Up(links, x, j).Some?
  {
    UpCompose(links, x, j, n - j);
  }

  /** The chain from `x` up to level n, one ID per level. */
  function ChainSeq(links: Links, x: string, n: nat): (s: seq<string>)
    requires Up(links, x, n).Some?
    ensures |s| == n + 1
    ensures forall j :: 0 <= j <= n ==> Up(links, x, j) == Some(s[j])
    decreases n
  {
    if n == 0 then [x]
    else
      UpPrefix(links, x, n - 1, n);
      ChainSeq(links, x, n - 1) + [Up(links, x, n).value]
  }

  /** A sequence without repeats is no longer than the set holding it. */
  lemma {:induction false} DistinctBound<T>(s: seq<T>, within: set<T>)
    requires Distinct(s) && forall i :: 0 <= i < |s| ==> s[i] in within
    ensures |s| <= |within|
    decreases |s|
  {
    if |s| > 0 {
      var rest := within - {s[0]};
      forall i | 0 <= i < |s[1..]| ensures s[1..][i] in rest {
        assert s[1..][i] == s[i + 1];
      }
      DistinctBound(s[1..], rest);
    }
  }

  /** Without cycles, a chain from a container visits distinct containers,
      so it ends within as many levels as there are containers. */
  lemma ChainBound(links: Links, start: string, k: nat)
    requires ParentsIn(links) && Acyclic(links) && start in links && Up(links, start, k).Some?
    ensures k < |links.Keys|
  {
    var s := ChainSeq(links, start, k);
    forall i | 0 <= i < |s| ensures s[i] in links.Keys {
      UpIn(links, start, i);
    }
    forall i, j | 0 <= i < j < |s| ensures s[i] != s[j] {
      UpIn(links, start, i);
      UpCompose(links, start, i, j - i);
    }
    DistinctBound(s, links.Keys);
  }

  // ---------------------------------------------------------------------------
  // The cycle check of dbContainerUpdate

  /** Where the walk of dbContainerUpdate stops: on meeting `target`, or on
      a container at the top level. */
  predicate Stops(links: Links, x: string, target: string)
  {
    x == target || (x in links && links[x] == "")
  }

  /** The walk up from `parent` stops after finitely many steps. It goes on
      forever when the chain cycles without meeting `target`, and it fails
      (a nil container in Go) when the chain leaves the index. */
  ghost predicate WalkEnds(links: Links, parent: string, target: string)
  {
    exists n :: Up(links, parent, n).Some? && Stops(links, Up(links, parent, n).value, target)
  }

  /** A level at which the walk stops. */
  ghost function WalkLength(links: Links, parent: string, target: string): (n: nat)
    requires WalkEnds(links, parent, target)
    ensures Up(links, parent, n).Some? && Stops(links, Up(links, parent, n).value, target)
  {
    var n :| Up(links, parent, n).Some? && Stops(links, Up(links, parent, n).value, target);
    n
  }

  /** Before the walk stops, the current ID is a container and its parent
      is the next level, which the stopping level is not below. */
  lemma WalkStep(links: Links, start: string, k: nat, n: nat, cur: string, target: string)
    requires Up(links, start, k) == Some(cur) && k <= n
    requires Up(links, start, n).Some? && Stops(links, Up(links, start, n).value, target)
    ensures cur == target || cur in links
    ensures cur != target && links[cur] != "" ==> k < n && Up(links, start, k + 1) == Some(links[cur])
  {
    if k < n {
      UpPrefix(links, start, k + 1, n);
      UpCompose(links, start, k, 1);
    }
  }

  /** The walk from a would-be parent upwards: true when it meets `target`
      before the top. `start` and `k` place `cur` on the chain, and the walk
      stops at level `n` at the latest. */
  function Reaches(links: Links, cur: string, target: string, ghost start: string, ghost k: nat, ghost n: nat): bool
    requires Up(links, start, k) == Some(cur) && k <= n
    requires Up(links, start, n).Some? && Stops(links, Up(links, start, n).value, target)
    decreases n - k
  {
    WalkStep(links, start, k, n, cur, target);
    if cur == target then true
    else if links[cur] == "" then false
    else Reaches(links, links[cur], target, start, k + 1, n)
  }

  /** dbContainerUpdate's loop: whether placing a container under `parent`
      would put it inside the container whose ID is `target`. */
  function WouldContain(links: Links, parent: string, target: string): (r: bool)
    requires parent == "" || WalkEnds(links, parent, target)
  {
    if parent == "" then false else Reaches(links, parent, target, parent, 0, WalkLength(links, parent, target))
  }

  /** The walk meets the target exactly when the target is the would-be
      parent or one of its ancestors. */
  lemma WouldContainMeans(links: Links, parent: string, target: string)
    requires parent == "" || WalkEnds(links, parent, target)
    ensures WouldContain(links, parent, target)
      <==> parent != "" && exists j :: Up(links, parent, j) == Some(target)
  {
    if parent != "" {
      ReachesMeans(links, parent, target, parent, 0, WalkLength(links, parent, target));
    }
  }

  lemma {:induction false} ReachesMeans(links: Links, cur: string, target: string, start: string, k: nat, n: nat)
    requires Up(links, start, k) == Some(cur) && k <= n
    requires Up(links, start, n).Some? && Stops(links, Up(links, start, n).value, target)
    ensures Reaches(links, cur, target, start, k, n) <==> exists j :: k <= j && Up(links, start, j) == Some(target)
    decreases n - k
  {
    WalkStep(links, start, k, n, cur, target);
    if cur != target {
      if links[cur] == "" {
        UpStep(links, start, k, cur);
        forall j | k < j ensures Up(links, start, j) != Some(target) {
          UpCompose(links, start, k + 1, j - (k + 1));
        }
      } else {
        ReachesMeans(links, links[cur], target, start, k + 1, n);
      }
    }
  }

  /** Without cycles every walk from a container ends, at the top level at
      the latest. */
  lemma AcyclicWalkEnds(links: Links, parent: string, target: string)
    requires ParentsIn(links) && Acyclic(links) && parent in links
    ensures WalkEnds(links, parent, target)
  {
    ClimbToTop(links, parent, target, 0);
  }

  lemma {:induction false} ClimbToTop(links: Links, start: string, target: string, k: nat)
    requires ParentsIn(links) && Acyclic(links) && start in links && Up(links, start, k).Some?
    ensures WalkEnds(links, start, target)
    decreases |links.Keys| - k
  {
    var cur := Up(links, start, k).value;
    UpIn(links, start, k);
    ChainBound(links, start, k);
    if links[cur] == "" {
      assert Stops(links, Up(links, start, k).value, target);
    } else {
      UpStep(links, start, k, cur);
      ClimbToTop(links, start, target, k + 1);
    }
  }

  /** A container that is its own parent: the walk from it stays there at
      every step, so it never ends unless it is looking for that very ID. */
  lemma SelfLoopNeverEnds(links: Links, id: string, target: string)
    requires id != "" && id in links && links[id] == id && target != id
    ensures forall n :: Up(links, id, n) == Some(id)
    ensures !WalkEnds(links, id, target)
  {
    forall n ensures Up(links, id, n) == Some(id) {
      StaysAt(links, id, n);
    }
  }

  lemma {:induction false} StaysAt(links: Links, id: string, n: nat)
    requires id != "" && id in links && links[id] == id
    ensures Up(links, id, n) == Some(id)
    decreases n
  {
    if n > 0 {
      StaysAt(links, id, n - 1);
    }
  }

  // ---------------------------------------------------------------------------
  // The cycle check of loadDatabase

  /** The walk from one container upwards, remembering the IDs seen: false
      as soon as a parent repeats one of them. */
  function LoopFree(links: Links, cur: string, seen: set<string>): bool
    requires ParentsIn(links) && cur in links && seen <= links.Keys
    decreases |links.Keys - seen|
  {
    var p := links[cur];
    if p == "" then true
    else if p in seen then false
    else
      Shrinks(links.Keys, seen, p);
      LoopFree(links, p, seen + {p})
  }

  lemma Shrinks(all: set<string>, seen: set<string>, p: string)
    requires p in all && p !in seen
    ensures |all - (seen + {p})| < |all - seen|
  {
    assert all - (seen + {p}) == (all - seen) - {p};
  }

  /** A walk that finds no repeat never climbs back to an ID it has seen. */
  lemma {:induction false} LoopFreeAvoids(links: Links, cur: string, seen: set<string>, m: nat)
    requires ParentsIn(links) && cur in links && seen <= links.Keys && LoopFree(links, cur, seen)
    requires 1 <= m
    ensures Up(links, cur, m).None? || Up(links, cur, m).value !in seen
    decreases m
  {
    var p := links[cur];
    if p != "" && m > 1 {
      LoopFreeAvoids(links, p, seen + {p}, m - 1);
    }
  }

  /** Every ID in `seen` is on the chain from `id`, at most k levels up. */
  ghost predicate OnChain(links: Links, id: string, k: nat, seen: set<string>)
  {
    forall y :: y in seen ==> exists j: nat :: j <= k && Up(links, id, j) == Some(y)
  }

  lemma ChainGrows(links: Links, id: string, k: nat, seen: set<string>, p: string)
    requires OnChain(links, id, k, seen) && Up(links, id, k + 1) == Some(p)
    ensures OnChain(links, id, k + 1, seen + {p})
  {
    forall y | y in seen + {p} ensures exists j: nat :: j <= k + 1 && Up(links, id, j) == Some(y) {
      if y == p {
        assert Up(links, id, k + 1) == Some(y);
      } else {
        var j: nat :| j <= k && Up(links, id, j) == Some(y);
        assert j <= k + 1;
      }
    }
  }

  /** Without cycles the walk finds no repeat: `seen` holds the chain from
      `id` up to `cur`. */
  lemma {:induction false} AcyclicLoopFree(links: Links, id: string, cur: string, seen: set<string>, k: nat)
    requires ParentsIn(links) && Acyclic(links) && id in links
    requires Up(links, id, k) == Some(cur) && seen <= links.Keys
    requires OnChain(links, id, k, seen)
    ensures cur in links && LoopFree(links, cur, seen)
    decreases |links.Keys - seen|
  {
    UpIn(links, id, k);
    var p := links[cur];
    if p != "" {
      UpStep(links, id, k, cur);
      forall j | 0 <= j <= k ensures Up(links, id, j) != Some(p) {
        UpCompose(links, id, j, k + 1 - j);
      }
      assert p !in seen;
      ChainGrows(links, id, k, seen, p);
      Shrinks(links.Keys, seen, p);
      AcyclicLoopFree(links, id, p, seen + {p}, k + 1);
    }
  }

  /** loadDatabase's check, run from every container, holds exactly when the
      links have no cycle. */
  lemma LoopFreeIffAcyclic(links: Links)
    requires ParentsIn(links)
    ensures (forall id :: id in links ==> LoopFree(links, id, {id})) <==> Acyclic(links)
  {
    if forall id :: id in links ==> LoopFree(links, id, {id}) {
      forall id, n | id in links && 1 <= n ensures Up(links, id, n) != Some(id) {
        LoopFreeAvoids(links, id, {id}, n);
      }
    }
    if Acyclic(links) {
      forall id | id in links ensures LoopFree(links, id, {id}) {
        assert Up(links, id, 0) == Some(id);
        assert OnChain(links, id, 0, {id});
        AcyclicLoopFree(links, id, id, {id}, 0);
      }
    }
  }

  // ---------------------------------------------------------------------------
  // Relinking one container

  /** Off `cid` the links agree; while the new chain from `x` avoids `cid`,
      it is the old chain. */
  lemma {:induction false} UpSame(links: Links, links': Links, cid: string, x: string, n: nat)
    requires ParentsIn(links')
    requires forall id :: id in links' && id != cid ==> id in links && links'[id] == links[id]
    requires x in links'
    requires forall j :: 0 <= j < n ==> Up(links', x, j) != Some(cid)
    ensures Up(links', x, n) == Up(links, x, n)
    decreases n
  {
    if n > 0 {
      assert Up(links', x, 0) == Some(x);
      var q := links'[x];
      if q != "" {
        forall j | 0 <= j < n - 1 ensures Up(links', q, j) != Some(cid) {
          assert Up(links', x, j + 1) == Up(links', q, j);
        }
        UpSame(links, links', cid, q, n - 1);
      }
    }
  }

  /** The new chain from the new parent never meets the relinked container. */
  lemma {:induction false} NewChainAvoids(links: Links, links': Links, cid: string, p: string, k: nat)
    requires ParentsIn(links')
    requires forall id :: id in links' && id != cid ==> id in links && links'[id] == links[id]
    requires p in links' && forall j :: Up(links, p, j) != Some(cid)
    ensures forall j :: 0 <= j <= k ==> Up(links', p, j) != Some(cid)
    decreases k
  {
    if k > 0 {
      NewChainAvoids(links, links', cid, p, k - 1);
    }
    UpSame(links, links', cid, p, k);
  }

  /** The relinked container is not its own ancestor. */
  lemma RelinkedNotOwnAncestor(links: Links, links': Links, cid: string, p: string, n: nat)
    requires ParentsIn(links')
    requires forall id :: id in links' && id != cid ==> id in links && links'[id] == links[id]
    requires cid in links' ==> links'[cid] == p
    requires p == "" || forall j :: Up(links, p, j) != Some(cid)
    requires 1 <= n
    ensures Up(links', cid, n) != Some(cid)
  {
    if cid in links' && p != "" {
      NewChainAvoids(links, links', cid, p, n - 1);
    }
  }

  lemma NoReturn(links: Links, links': Links, cid: string, p: string, id: string, n: nat)
    requires Acyclic(links) && ParentsIn(links')
    requires forall id :: id in links' && id != cid ==> id in links && links'[id] == links[id]
    requires cid in links' ==> links'[cid] == p
    requires p == "" || forall j :: Up(links, p, j) != Some(cid)
    requires id in links' && 1 <= n
    ensures Up(links', id, n) != Some(id)
  {
    if exists j :: 0 <= j < n && Up(links', id, j) == Some(cid) {
      var j :| 0 <= j < n && Up(links', id, j) == Some(cid);
      UpCompose(links', id, j, n - j);
      UpCompose(links', cid, n - j, j);
      RelinkedNotOwnAncestor(links, links', cid, p, n);
    } else {
      assert Up(links', id, 0) == Some(id);
      UpSame(links, links', cid, id, n);
    }
  }

  /** Giving one container `cid` the parent `p` (or removing it) keeps the
      links acyclic when the old chain from `p` never reaches `cid`. */
  lemma AcyclicAfterRelink(links: Links, links': Links, cid: string, p: string)
    requires Acyclic(links) && ParentsIn(links')
    requires forall id :: id in links' && id != cid ==> id in links && links'[id] == links[id]
    requires cid in links' ==> links'[cid] == p
    requires p == "" || forall j :: Up(links, p, j) != Some(cid)
    ensures Acyclic(links')
  {
    forall id, n | id in links' && 1 <= n ensures Up(links', id, n) != Some(id) {
      NoReturn(links, links', cid, p, id, n);
    }
  }
}

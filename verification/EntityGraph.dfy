/** The graph of changes applied to an entity (backend/hyper/entity.go). Lists of indices are seen
    as sets: `addUnique` keeps sets, not order. */
module EntityGraph {
  import opened Options
  import MergeMap

  type Cid = string

  datatype Change = Change(entity: string, signer: string, time: int, deps: seq<Cid>, patch: Option<MergeMap.Fields>)

  datatype Stored = Stored(cid: Cid, data: Change)

  datatype Graph = Graph(
    changes: seq<Stored>,
    applied: map<Cid, nat>,
    heads: set<Cid>,
    deps: seq<set<nat>>,
    rdeps: seq<set<nat>>)

  const EMPTY := Graph([], map[], {}, [], [])

  /** The indices of changes. */
  function Indices(applied: map<Cid, nat>, cids: seq<Cid>): set<nat>
  {
    set d | d in cids && d in applied :: applied[d]
  }

  function CidSet(cids: seq<Cid>): set<Cid>
  {
    set d | d in cids
  }

  /** The graph with one more change: its edges in both directions, and the heads without its dependencies. */
  function Added(g: Graph, c: Cid, ch: Change): Graph
    requires |g.rdeps| == |g.changes|
  {
    var n, ds := |g.changes|, Indices(g.applied, ch.deps);
    Graph(
      g.changes + [Stored(c, ch)],
      g.applied[c := n],
      g.heads + {c} - CidSet(ch.deps),
      g.deps + [ds],
      seq(n + 1, j requires 0 <= j <= n => (if j < n then g.rdeps[j] else {}) + (if j in ds then {n} else {})))
  }

  // ---- What holds of every graph built by applying changes ----

  predicate IndexWell(g: Graph, c: Cid)
    requires c in g.applied
  {
    g.applied[c] < |g.changes| && g.changes[g.applied[c]].cid == c
  }

  /** Heads are applied, and indices point to changes. */
  ghost predicate Shaped(g: Graph)
  {
    && |g.deps| == |g.rdeps| == |g.changes|
    && (forall c :: c in g.applied ==> IndexWell(g, c))
    && g.heads <= g.applied.Keys
    && (forall i, d :: 0 <= i < |g.changes| && d in g.deps[i] ==> d < |g.changes|)
    && (forall i, d :: 0 <= i < |g.changes| && d in g.rdeps[i] ==> d < |g.changes|)
  }

  predicate Placed(g: Graph, i: nat)
    requires i < |g.changes|
  {
    g.changes[i].cid in g.applied && g.applied[g.changes[i].cid] == i
  }

  /** The edges of a change are to its dependencies, all of them earlier. */
  predicate EdgesWell(g: Graph, i: nat)
    requires i < |g.changes| == |g.deps|
  {
    && CidSet(g.changes[i].data.deps) <= g.applied.Keys
    && g.deps[i] == Indices(g.applied, g.changes[i].data.deps)
    && forall d :: d in g.deps[i] ==> d < i
  }

  /** Nobody depends on it. */
  predicate Topmost(g: Graph, c: Cid)
    requires c in g.applied && g.applied[c] < |g.rdeps|
  {
    g.rdeps[g.applied[c]] == {}
  }

  ghost predicate Transposed(g: Graph)
    requires |g.deps| == |g.rdeps| == |g.changes|
  {
    forall i, j :: 0 <= i < |g.changes| && 0 <= j < |g.changes| ==> (i in g.deps[j] <==> j in g.rdeps[i])
  }

  ghost predicate HeadsWell(g: Graph)
    requires Shaped(g)
  {
    forall c :: c in g.applied ==> IndexWell(g, c) && (c in g.heads <==> Topmost(g, c))
  }

  ghost predicate Sound(g: Graph)
  {
    && Shaped(g)
    && (forall i :: 0 <= i < |g.changes| ==> Placed(g, i))
    && (forall i :: 0 <= i < |g.changes| ==> EdgesWell(g, i))
    && Transposed(g)
    && HeadsWell(g)
  }

  /** The change is new and its dependencies are applied. */
  predicate CanAdd(g: Graph, c: Cid, ch: Change)
  {
    c !in g.applied && CidSet(ch.deps) <= g.applied.Keys
  }

  lemma {:induction false} AddedKeepsShape(g: Graph, c: Cid, ch: Change)
    requires Shaped(g) && CanAdd(g, c, ch)
    ensures Shaped(Added(g, c, ch))
  {
    var g' := Added(g, c, ch);
    forall x | x in g'.applied
      ensures IndexWell(g', x)
    {
      assert x != c ==> IndexWell(g, x);
    }
    forall d | d in Indices(g.applied, ch.deps)
      ensures d < |g.changes|
    {
      var x :| x in ch.deps && x in g.applied && g.applied[x] == d;
      assert IndexWell(g, x);
    }
  }

  lemma {:induction false} AddedKeepsEdges(g: Graph, c: Cid, ch: Change, i: nat)
    requires Sound(g) && CanAdd(g, c, ch) && i <= |g.changes|
    ensures EdgesWell(Added(g, c, ch), i)
  {
    var g' := Added(g, c, ch);
    var ds := g'.changes[i].data.deps;
    if i < |g.changes| {
      assert EdgesWell(g, i);
    } else {
      AddedKeepsShape(g, c, ch);
      assert g'.deps[i] == Indices(g.applied, ds);
      forall d | d in g'.deps[i]
        ensures d < i
      {
        var x :| x in ds && x in g.applied && g.applied[x] == d;
        assert IndexWell(g, x);
      }
    }
    assert c !in ds by {
      assert c in ds ==> c in CidSet(ds);
    }
    assert Indices(g'.applied, ds) == Indices(g.applied, ds);
  }

  /** Adding a change keeps the graph sound. */
  lemma {:induction false} AddedKeepsSound(g: Graph, c: Cid, ch: Change)
    requires Sound(g) && CanAdd(g, c, ch)
    ensures Sound(Added(g, c, ch))
  {
    var n, g' := |g.changes|, Added(g, c, ch);
    AddedKeepsShape(g, c, ch);
    forall i | 0 <= i <= n
      ensures Placed(g', i)
    {
      assert i < n ==> Placed(g, i);
    }
    forall i | 0 <= i <= n
      ensures EdgesWell(g', i)
    {
      AddedKeepsEdges(g, c, ch, i);
    }
    forall x | x in g'.applied
      ensures IndexWell(g', x) && (x in g'.heads <==> Topmost(g', x))
    {
      if x == c {
        assert EdgesWell(g', n);
        assert CidSet(ch.deps) <= g.applied.Keys && c !in g.applied;
      }
    }
  }

  // ---- Ancestors ----

  /** Change `i` is change `j`, or is reached from it through dependencies. */
  predicate Reaches(g: Graph, i: nat, j: nat)
    decreases j
  {
    i == j || (j < |g.deps| && exists k :: k in g.deps[j] && k < j && Reaches(g, i, k))
  }

  lemma {:induction false} ReachesOn(g: Graph, i: nat, j: nat, h: nat)
    requires i < j < |g.deps| && i in g.deps[j] && Reaches(g, j, h)
    ensures Reaches(g, i, h)
    decreases h
  {
    if j == h {
      assert i in g.deps[h] && i < h && Reaches(g, i, i);
    } else {
      var k :| k in g.deps[h] && k < h && Reaches(g, j, k);
      ReachesOn(g, i, j, k);
    }
  }

  lemma {:induction false} ReachesTransitive(g: Graph, a: nat, b: nat, c: nat)
    requires Reaches(g, a, b) && Reaches(g, b, c)
    ensures Reaches(g, a, c)
    decreases c
  {
    if b != c {
      var k :| k in g.deps[c] && k < c && Reaches(g, b, k);
      ReachesTransitive(g, a, b, k);
    }
  }

  lemma {:induction false} ReachesDown(g: Graph, i: nat, j: nat)
    requires Reaches(g, i, j)
    ensures i <= j
    decreases j
  {
    if i != j {
      var k :| k in g.deps[j] && k < j && Reaches(g, i, k);
      ReachesDown(g, i, k);
    }
  }

  /** One step down from a descendant: a change between, right behind `i`. */
  lemma {:induction false} FirstStep(g: Graph, i: nat, j: nat) returns (k: nat)
    requires Reaches(g, i, j) && i != j && j < |g.deps|
    ensures i < k < |g.deps| && i in g.deps[k] && Reaches(g, k, j)
    decreases j
  {
    var m :| m in g.deps[j] && m < j && Reaches(g, i, m);
    ReachesDown(g, i, m);
    if m == i {
      k := j;
    } else {
      k := FirstStep(g, i, m);
      assert Reaches(g, k, j) by {
        assert m in g.deps[j] && m < j && Reaches(g, k, m);
      }
    }
  }

  /** Every change is an ancestor of some head. */
  lemma {:induction false} EveryChangeUnderAHead(g: Graph, i: nat) returns (h: Cid)
    requires Sound(g) && i < |g.changes|
    ensures h in g.heads && h in g.applied && Reaches(g, i, g.applied[h])
    decreases |g.changes| - i
  {
    assert Placed(g, i);
    if g.rdeps[i] == {} {
      h := g.changes[i].cid;
      assert Topmost(g, h) && IndexWell(g, h);
    } else {
      var j :| j in g.rdeps[i];
      assert i in g.deps[j] && EdgesWell(g, j);
      h := EveryChangeUnderAHead(g, j);
      ReachesOn(g, i, j, g.applied[h]);
    }
  }

  /** The index of every head is above those of its ancestors, and heads are no ancestors of one another. */
  lemma {:induction false} HeadsApart(g: Graph, a: Cid, b: Cid)
    requires Sound(g) && a in g.heads && b in g.applied && Reaches(g, g.applied[a], g.applied[b])
    ensures a == b
  {
    assert IndexWell(g, a) && IndexWell(g, b) && Topmost(g, a);
    if g.applied[a] != g.applied[b] {
      var k := FirstStep(g, g.applied[a], g.applied[b]);
    }
  }
}

/** Whole histories of an entity: its graph, its dependencies and its replaced changes
    (backend/hyper/entity.go). */
module EntityRuns {
  import opened Options
  import opened EntityGraph
  import opened Entities
  import Hlc
  import MergeKeys
  import MergeMap
  import MergeRuns

  /** A change given to the entity, and the wall reading at that time. */
  datatype Call = Call(cid: Cid, change: Change, wall: int)

  /** The entity after any calls, refused ones included. */
  ghost function RunOf(id: string, calls: seq<Call>): (s: Snapshot)
    ensures |s.graph.rdeps| == |s.graph.changes|
  {
    if calls == [] then NEW
    else Step(id, RunOf(id, calls[..|calls| - 1]), calls[|calls| - 1])
  }

  ghost function Step(id: string, s: Snapshot, call: Call): Snapshot
    requires |s.graph.rdeps| == |s.graph.changes|
  {
    After(id, s, call.cid, call.change, call.wall)
  }

  predicate Accepts(id: string, s: Snapshot, call: Call)
  {
    Refusal(id, s, call.cid, call.change, call.wall) == None
  }

  /** In every history the graph is sound. */
  lemma {:induction false} RunIsSound(id: string, calls: seq<Call>)
    ensures Sound(RunOf(id, calls).graph)
  {
    if calls != [] {
      var s, call := RunOf(id, calls[..|calls| - 1]), calls[|calls| - 1];
      RunIsSound(id, calls[..|calls| - 1]);
      if Accepts(id, s, call) {
        AddedKeepsSound(s.graph, call.cid, call.change);
      }
    }
  }

  /** All changes applied are of this entity. */
  ghost predicate OwnOnly(id: string, g: Graph)
  {
    forall i :: 0 <= i < |g.changes| ==> g.changes[i].data.entity == id
  }

  lemma {:induction false} StaysOwn(id: string, s: Snapshot, call: Call)
    requires |s.graph.rdeps| == |s.graph.changes| && OwnOnly(id, s.graph)
    ensures OwnOnly(id, Step(id, s, call).graph)
  {
    if Accepts(id, s, call) {
      assert Step(id, s, call).graph.changes == s.graph.changes + [Stored(call.cid, call.change)];
    }
  }

  /** In every history only changes of this entity are applied. */
  lemma {:induction false} RunIsOwn(id: string, calls: seq<Call>)
    ensures OwnOnly(id, RunOf(id, calls).graph)
  {
    if calls != [] {
      var n := |calls| - 1;
      RunIsOwn(id, calls[..n]);
      StaysOwn(id, RunOf(id, calls[..n]), calls[n]);
    }
  }

  ghost predicate Timely(s: Snapshot)
  {
    && (forall i, j :: 0 <= i < j < |s.graph.changes| ==> s.graph.changes[i].data.time <= s.graph.changes[j].data.time)
    && (forall i :: 0 <= i < |s.graph.changes| ==> 0 <= s.graph.changes[i].data.time <= s.maxTime)
    && (s.graph.changes == [] ==> s.maxTime == 0)
    && (s.graph.changes != [] ==> s.maxTime == s.graph.changes[|s.graph.changes| - 1].data.time)
  }

  lemma {:induction false} StaysTimely(id: string, s: Snapshot, call: Call)
    requires |s.graph.rdeps| == |s.graph.changes| && Timely(s)
    ensures Timely(Step(id, s, call))
  {
    if Accepts(id, s, call) {
      assert Step(id, s, call).graph.changes == s.graph.changes + [Stored(call.cid, call.change)];
    }
  }

  /** Changes are applied in the order of their times, and the clock shows the last one. */
  lemma {:induction false} RunIsTimely(id: string, calls: seq<Call>)
    ensures Timely(RunOf(id, calls))
  {
    if calls != [] {
      var n := |calls| - 1;
      RunIsTimely(id, calls[..n]);
      StaysTimely(id, RunOf(id, calls[..n]), calls[n]);
    }
  }

  /** No change is older than an ancestor of it. */
  lemma {:induction false} AncestorsAreOlder(id: string, calls: seq<Call>, i: nat, j: nat)
    requires j < |RunOf(id, calls).graph.changes| && Reaches(RunOf(id, calls).graph, i, j)
    ensures i <= j
    ensures RunOf(id, calls).graph.changes[i].data.time <= RunOf(id, calls).graph.changes[j].data.time
  {
    ReachesDown(RunOf(id, calls).graph, i, j);
    RunIsTimely(id, calls);
  }

  // ---- Collected dependencies of several heads ----

  /** No returned dependency is an ancestor of another. */
  ghost predicate Antichain(g: Graph, s: set<nat>)
  {
    forall a, b :: a in s && b in s && Reaches(g, a, b) ==> a == b
  }

  /** No history is lost: every collected dependency is a returned one or an ancestor of one. */
  lemma {:induction false} CollectedUnderReturned(g: Graph, d: nat) returns (r: nat)
    requires Sound(g) && d in FullDeps(g)
    ensures r in Reduced(g) && Reaches(g, d, r)
    decreases |g.changes| - d
  {
    if g.rdeps[d] !! FullDeps(g) {
      r := d;
    } else {
      var e :| e in g.rdeps[d] && e in FullDeps(g);
      assert d in g.deps[e] && EdgesWell(g, e);
      r := CollectedUnderReturned(g, e);
      ReachesOn(g, d, e, r);
    }
  }

  /** A collected dependency with a collected descendant has a collected direct successor. */
  ghost predicate NoGap(g: Graph, d: nat)
  {
    (exists e :: e in FullDeps(g) && e != d && Reaches(g, d, e)) ==> d < |g.rdeps| && !(g.rdeps[d] !! FullDeps(g))
  }

  /** What is returned is minimal exactly when no path between collected dependencies starts at a
      change that is not collected. */
  lemma {:induction false} MinimalWithoutGaps(g: Graph)
    requires Sound(g)
    ensures Antichain(g, Reduced(g)) <==> forall d :: d in FullDeps(g) ==> NoGap(g, d)
  {
    if Antichain(g, Reduced(g)) {
      forall d | d in FullDeps(g)
        ensures NoGap(g, d)
      {
        if e :| e in FullDeps(g) && e != d && Reaches(g, d, e) {
          var r := CollectedUnderReturned(g, e);
          ReachesTransitive(g, d, e, r);
          ReachesDown(g, d, e);
          ReachesDown(g, e, r);
        }
      }
    }
    if forall d :: d in FullDeps(g) ==> NoGap(g, d) {
      forall a, b | a in Reduced(g) && b in Reduced(g) && Reaches(g, a, b)
        ensures a == b
      {
        assert NoGap(g, a);
      }
    }
  }

  /** A change with nothing but dependencies, all made by one signer at the same time. */
  function Plain(name: Cid, deps: seq<Cid>): Call
  {
    Call(name, Change("e", "me", 0, deps, None), 0)
  }

  function PlainStored(name: Cid, deps: seq<Cid>): Stored
  {
    Stored(name, Plain(name, deps).change)
  }

  /** Changes a <- b <- c <- f and a <- d: the heads are d and f, their dependencies a and c. */
  const FORK := [Plain("a", []), Plain("b", ["a"]), Plain("c", ["b"]), Plain("d", ["a"]), Plain("f", ["c"])]

  const FORK_CHANGES := [PlainStored("a", []), PlainStored("b", ["a"]), PlainStored("c", ["b"]), PlainStored("d", ["a"]),
                         PlainStored("f", ["c"])]

  const FORK_APPLIED: map<Cid, nat> := map["a" := 0, "b" := 1, "c" := 2, "d" := 3, "f" := 4]

  ghost predicate GrownTo(calls: seq<Call>, changes: seq<Stored>, n: nat, applied: map<Cid, nat>)
    requires n <= |calls| == |changes|
  {
    var s := RunOf("e", calls[..n]);
    s.graph.changes == changes[..n] && s.graph.applied == applied && s.maxTime == 0 && TimeOf(s.times, "me") == 0
  }

  ghost predicate Grown(n: nat, applied: map<Cid, nat>)
    requires n <= 5
  {
    GrownTo(FORK, FORK_CHANGES, n, applied)
  }

  lemma {:induction false} PlainIsAccepted(s: Snapshot, name: Cid, deps: seq<Cid>)
    requires |s.graph.rdeps| == |s.graph.changes| && s.maxTime == 0 && TimeOf(s.times, "me") == 0
    requires name !in s.graph.applied && CidSet(deps) <= s.graph.applied.Keys
    ensures
      var s' := Step("e", s, Plain(name, deps));
      && s'.graph.changes == s.graph.changes + [PlainStored(name, deps)]
      && s'.graph.applied == s.graph.applied[name := |s.graph.changes|]
      && s'.maxTime == 0 && TimeOf(s'.times, "me") == 0
  {
    assert Hlc.ValidateSkew(0, 0) == Some(0);
  }

  lemma {:induction false} GrowsOn(calls: seq<Call>, changes: seq<Stored>, n: nat, applied: map<Cid, nat>, name: Cid,
                                   deps: seq<Cid>)
    requires n < |calls| == |changes| && GrownTo(calls, changes, n, applied)
    requires calls[n] == Plain(name, deps) && changes[n] == PlainStored(name, deps)
    requires name !in applied && CidSet(deps) <= applied.Keys
    ensures GrownTo(calls, changes, n + 1, applied[name := n])
  {
    assert calls[..n + 1][..n] == calls[..n] && changes[..n + 1] == changes[..n] + [changes[n]];
    PlainIsAccepted(RunOf("e", calls[..n]), name, deps);
  }

  lemma {:induction false} Grows(n: nat, applied: map<Cid, nat>, name: Cid, deps: seq<Cid>)
    requires n < 5 && Grown(n, applied) && FORK[n] == Plain(name, deps) && FORK_CHANGES[n] == PlainStored(name, deps)
    requires name !in applied && CidSet(deps) <= applied.Keys
    ensures Grown(n + 1, applied[name := n])
  {
    GrowsOn(FORK, FORK_CHANGES, n, applied, name, deps);
  }

  lemma {:induction false} ForkIsApplied()
    ensures Grown(5, FORK_APPLIED)
  {
    var applied: map<Cid, nat> := map["a" := 0];
    Grows(0, map[], "a", []);
    Grows(1, applied, "b", ["a"]);
    Grows(2, applied["b" := 1], "c", ["b"]);
    Grows(3, applied["b" := 1]["c" := 2], "d", ["a"]);
    Grows(4, applied["b" := 1]["c" := 2]["d" := 3], "f", ["c"]);
    assert applied["b" := 1]["c" := 2]["d" := 3]["f" := 4] == FORK_APPLIED;
  }

  lemma {:induction false} OneDep(g: Graph, i: nat, dep: Cid)
    requires Sound(g) && i < |g.changes| && g.changes[i].data.deps == [dep]
    ensures dep in g.applied && g.deps[i] == {g.applied[dep]}
  {
    assert EdgesWell(g, i);
    assert dep in CidSet([dep]);
    assert Indices(g.applied, [dep]) == {g.applied[dep]};
  }

  lemma {:induction false} ForkEdges(g: Graph)
    requires Sound(g) && g.changes == FORK_CHANGES && g.applied == FORK_APPLIED
    ensures g.deps[0] == {} && g.deps[1] == {0} && g.deps[2] == {1} && g.deps[3] == {0} && g.deps[4] == {2}
  {
    OneDep(g, 1, "a");
    OneDep(g, 2, "b");
    OneDep(g, 3, "a");
    OneDep(g, 4, "c");
    assert EdgesWell(g, 0);
  }

  lemma {:induction false} ForkHeads(g: Graph)
    requires Sound(g) && g.changes == FORK_CHANGES && g.applied == FORK_APPLIED
    requires g.deps[0] == {} && g.deps[1] == {0} && g.deps[2] == {1} && g.deps[3] == {0} && g.deps[4] == {2}
    ensures g.heads == {"d", "f"} && g.rdeps[0] == {1, 3} && g.rdeps[2] == {4}
  {
    forall i, j | 0 <= i < 5 && 0 <= j < 5
      ensures j in g.rdeps[i] <==> i in g.deps[j]
    {
    }
    assert forall j :: j in g.rdeps[3] || j in g.rdeps[4] ==> j < 5;
    assert g.rdeps[3] == {} && g.rdeps[4] == {} && 1 in g.rdeps[0] && 2 in g.rdeps[1] && 4 in g.rdeps[2];
    assert forall c :: c in g.applied ==> IndexWell(g, c) && (c in g.heads <==> Topmost(g, c));
  }

  lemma {:induction false} ForkReduced(g: Graph)
    requires Sound(g) && |g.changes| == 5 && g.applied == FORK_APPLIED && g.heads == {"d", "f"}
    requires g.deps[0] == {} && g.deps[1] == {0} && g.deps[2] == {1} && g.deps[3] == {0} && g.deps[4] == {2}
    requires g.rdeps[0] == {1, 3} && g.rdeps[2] == {4}
    ensures !Antichain(g, Reduced(g))
  {
    assert "d" in g.heads && "f" in g.heads && 0 in g.deps[g.applied["d"]] && 2 in g.deps[g.applied["f"]];
    assert FullDeps(g) == {0, 2};
    assert 0 in Reduced(g) && 2 in Reduced(g);
    assert Reaches(g, 0, 0) && 0 in g.deps[1] && Reaches(g, 0, 1);
    assert 1 in g.deps[2] && Reaches(g, 0, 2);
  }

  lemma {:induction false} ForkIsRedundant(g: Graph)
    requires Sound(g) && g.changes == FORK_CHANGES && g.applied == FORK_APPLIED
    ensures |g.heads| > 1 && !Antichain(g, Reduced(g))
  {
    ForkEdges(g);
    ForkHeads(g);
    ForkReduced(g);
  }

  lemma {:induction false} GrownWholly(calls: seq<Call>, changes: seq<Stored>, applied: map<Cid, nat>)
    requires |calls| == |changes| && GrownTo(calls, changes, |calls|, applied)
    ensures RunOf("e", calls).graph.changes == changes && RunOf("e", calls).graph.applied == applied
  {
    assert calls[..|calls|] == calls && changes[..|changes|] == changes;
  }

  /** The dependencies returned need not be minimal: here both a and its descendant c are. */
  lemma {:induction false} ReturnedNeedNotBeMinimal()
    ensures
      var g := RunOf("e", FORK).graph;
      |g.heads| > 1 && !Antichain(g, Reduced(g))
  {
    ForkIsApplied();
    GrownWholly(FORK, FORK_CHANGES, FORK_APPLIED);
    RunIsSound("e", FORK);
    ForkIsRedundant(RunOf("e", FORK).graph);
  }

  // ---- Replaced changes ----

  lemma {:induction false} AllReachTheOnlyHead(g: Graph, prev: Cid)
    requires Sound(g) && g.heads == {prev}
    ensures prev in g.applied && IndexWell(g, prev) && g.applied[prev] == |g.changes| - 1
  {
    assert prev in g.heads;
    assert IndexWell(g, prev);
    var h := EveryChangeUnderAHead(g, |g.changes| - 1);
    ReachesDown(g, |g.changes| - 1, g.applied[h]);
  }

  ghost predicate StampOfSome(changes: seq<Stored>, stamp: MergeKeys.Stamp)
  {
    exists i :: 0 <= i < |changes| && StampOf(changes[i].cid, changes[i].data) == stamp
  }

  /** Every value in the state is from some change applied. */
  lemma {:induction false} NodesAreFromChanges(id: string, calls: seq<Call>, n: MergeKeys.Node)
    requires n in RunOf(id, calls).nodes
    ensures StampOfSome(RunOf(id, calls).graph.changes, n.key.Stamped())
  {
    if calls != [] {
      var init, call := calls[..|calls| - 1], calls[|calls| - 1];
      var s := RunOf(id, init);
      var more := s.graph.changes + [Stored(call.cid, call.change)];
      if n in s.nodes {
        NodesAreFromChanges(id, init, n);
        var i :| 0 <= i < |s.graph.changes|
                 && StampOf(s.graph.changes[i].cid, s.graph.changes[i].data) == n.key.Stamped();
        assert more[i] == s.graph.changes[i];
        assert RunOf(id, calls).graph.changes[i] == s.graph.changes[i];
      } else {
        assert RunOf(id, calls).graph.changes == more;
        assert more[|s.graph.changes|] == Stored(call.cid, call.change);
      }
    }
  }

  predicate TimesGrow(before: map<string, int>, after: map<string, int>)
  {
    forall signer :: signer in before ==> signer in after && before[signer] <= after[signer]
  }

  /** The entity is as one call left it, but for times of signers of changes refused later. */
  ghost predicate LeftBy(id: string, before: Snapshot, call: Call, s: Snapshot)
    requires |before.graph.rdeps| == |before.graph.changes|
  {
    && Accepts(id, before, call)
    && s.graph == Added(before.graph, call.cid, call.change)
    && s.nodes == Patched(before.nodes, call.cid, call.change)
    && s.maxTime == call.change.time
    && TimesGrow(before.times, s.times)
  }

  lemma {:induction false} RefusedLater(id: string, before: Snapshot, first: Call, s: Snapshot, call: Call)
    requires |before.graph.rdeps| == |before.graph.changes| && |s.graph.rdeps| == |s.graph.changes|
    requires LeftBy(id, before, first, s) && !Accepts(id, s, call)
    ensures LeftBy(id, before, first, Step(id, s, call))
  {
  }

  lemma {:induction false} LastAccepted(id: string, calls: seq<Call>) returns (k: nat)
    requires RunOf(id, calls).graph.changes != []
    ensures k < |calls| && LeftBy(id, RunOf(id, calls[..k]), calls[k], RunOf(id, calls))
  {
    var n := |calls| - 1;
    var init, s := calls[..n], RunOf(id, calls[..n]);
    if Accepts(id, s, calls[n]) {
      k := n;
    } else {
      k := LastAccepted(id, init);
      assert init[..k] == calls[..k];
      RefusedLater(id, RunOf(id, calls[..k]), calls[k], s, calls[n]);
    }
  }

  /** The parts of an entity that a caller sees. */
  ghost predicate LooksLike(s: Snapshot, t: Snapshot)
  {
    s.nodes == t.nodes && s.graph.applied.Keys == t.graph.applied.Keys && s.graph.heads == t.graph.heads
  }

  ghost predicate NoOther(nodes: iset<MergeKeys.Node>, stamp: MergeKeys.Stamp)
  {
    forall n :: n in nodes ==> n.key.Stamped() != stamp
  }

  lemma {:induction false} ForgottenNodes(nodes: iset<MergeKeys.Node>, c: Cid, ch: Change)
    requires NoOther(nodes, StampOf(c, ch))
    ensures MergeMap.Without(Patched(nodes, c, ch), StampOf(c, ch)) == nodes
  {
    if ch.patch.Some? {
      MergeRuns.ForgetUndoes(nodes, MergeMap.Patch(StampOf(c, ch), ch.patch.value));
    } else {
      assert MergeMap.Without(nodes, StampOf(c, ch)) == nodes;
    }
  }

  /** Replacing the change just accepted gives what the new change alone would have given. */
  lemma {:induction false} ReplacedAsIfNeverApplied(id: string, before: Snapshot, was: Call, s: Snapshot, now: Call)
    requires Sound(before.graph) && 0 <= before.maxTime && LeftBy(id, before, was, s)
    requires s.graph.heads == {was.cid} && NoOther(before.nodes, StampOf(was.cid, was.change))
    requires CidSet(now.change.deps) == CidSet(was.change.deps)
    requires s.graph.applied[was.cid] < |s.graph.changes| && IndexWell(s.graph, was.cid)
    requires Accepts(id, Forgotten(s, was.cid), now)
    ensures Accepts(id, before, now) && LooksLike(Step(id, Forgotten(s, was.cid), now), Step(id, before, now))
  {
    var forgotten := Forgotten(s, was.cid);
    var g := before.graph;
    assert forgotten.graph.applied == g.applied by {
      assert (g.applied[was.cid := |g.changes|] - {was.cid}) == g.applied;
    }
    ForgottenNodes(before.nodes, was.cid, was.change);
    assert forgotten.nodes == before.nodes;
    assert forgotten.graph.heads == {};
    assert g.heads <= CidSet(now.change.deps) by {
      forall h | h in g.heads
        ensures h in CidSet(now.change.deps)
      {
        assert h in g.applied && h != was.cid;
        assert h !in s.graph.heads;
      }
    }
    assert now.cid !in g.applied && now.cid !in CidSet(now.change.deps);
  }

  /** After any history: the state, the changes applied and the heads after a successful replacement
      are those of a history that never had the change replaced. */
  lemma {:induction false} ReplacedInRun(id: string, calls: seq<Call>, prev: Cid, now: Call) returns (k: nat)
    requires RunOf(id, calls).graph.heads == {prev}
    requires prev in RunOf(id, calls).graph.applied && IndexWell(RunOf(id, calls).graph, prev)
    requires
      var g := RunOf(id, calls).graph;
      var was := g.changes[g.applied[prev]].data;
      && CidSet(now.change.deps) == CidSet(was.deps)
      && forall x :: x in g.changes && x.cid != prev ==> StampOf(x.cid, x.data) != StampOf(prev, was)
    requires Accepts(id, Forgotten(RunOf(id, calls), prev), now)
    ensures k < |calls| && prev !in RunOf(id, calls[..k]).graph.applied
    ensures LooksLike(Step(id, Forgotten(RunOf(id, calls), prev), now), RunOf(id, calls[..k] + [now]))
  {
    var s := RunOf(id, calls);
    RunIsSound(id, calls);
    AllReachTheOnlyHead(s.graph, prev);
    k := LastAccepted(id, calls);
    var before, was := RunOf(id, calls[..k]), calls[k];
    RunIsSound(id, calls[..k]);
    RunIsTimely(id, calls[..k]);
    assert was == Call(prev, s.graph.changes[s.graph.applied[prev]].data, was.wall);
    forall n | n in before.nodes
      ensures n.key.Stamped() != StampOf(prev, was.change)
    {
      NodesAreFromChanges(id, calls[..k], n);
      var i :| 0 <= i < |before.graph.changes|
               && StampOf(before.graph.changes[i].cid, before.graph.changes[i].data) == n.key.Stamped();
      assert Placed(before.graph, i);
      assert s.graph.changes[i] == before.graph.changes[i] && s.graph.changes[i] in s.graph.changes;
    }
    ReplacedAsIfNeverApplied(id, before, was, s, now);
    assert (calls[..k] + [now])[..k] == calls[..k];
  }
}

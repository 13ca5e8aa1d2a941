/** Replicas of an entity, and changes made with the entity's own clock
    (backend/hyper/entity.go, backend/hlc/hlc.go, backend/crdt2/map.go). */
module EntityReplicas {
  import opened Options
  import opened EntityGraph
  import opened Entities
  import opened EntityRuns
  import Hlc
  import Int64
  import MergeKeys
  import MergeMap
  import MergeRuns

  // ---- Convergence ----

  /** The patches of changes, in their order. */
  function PatchesOf(changes: seq<Stored>): seq<MergeMap.Patch>
  {
    if changes == [] then []
    else
      var last := changes[|changes| - 1];
      PatchesOf(changes[..|changes| - 1])
      + if last.data.patch.Some? then [MergeMap.Patch(StampOf(last.cid, last.data), last.data.patch.value)] else []
  }

  predicate Patches(st: Stored, p: MergeMap.Patch)
  {
    st.data.patch.Some? && p == MergeMap.Patch(StampOf(st.cid, st.data), st.data.patch.value)
  }

  lemma {:induction false} PatchesFromChanges(changes: seq<Stored>, p: MergeMap.Patch)
    ensures p in PatchesOf(changes) <==> exists st :: st in changes && Patches(st, p)
  {
    if changes != [] {
      var init, last := changes[..|changes| - 1], changes[|changes| - 1];
      assert changes == init + [last];
      PatchesFromChanges(init, p);
      assert p in PatchesOf(changes) <==> p in PatchesOf(init) || Patches(last, p);
      if p in PatchesOf(init) {
        var st :| st in init && Patches(st, p);
        assert st in changes;
      } else if Patches(last, p) {
        assert last in changes;
      }
    }
  }

  /** The state of an entity is what the patches of its changes come to. */
  lemma {:induction false} StateIsPatched(id: string, calls: seq<Call>)
    ensures RunOf(id, calls).nodes == MergeRuns.RunOf(PatchesOf(RunOf(id, calls).graph.changes))
  {
    if calls != [] {
      var init, call := calls[..|calls| - 1], calls[|calls| - 1];
      var s, s' := RunOf(id, init), RunOf(id, calls);
      StateIsPatched(id, init);
      if Accepts(id, s, call) {
        OneMorePatch(s.graph.changes, call.cid, call.change);
        assert s'.graph.changes == s.graph.changes + [Stored(call.cid, call.change)];
      }
    }
  }

  lemma {:induction false} OneMorePatch(changes: seq<Stored>, c: Cid, ch: Change)
    ensures MergeRuns.RunOf(PatchesOf(changes + [Stored(c, ch)])) == Patched(MergeRuns.RunOf(PatchesOf(changes)), c, ch)
  {
    var more := changes + [Stored(c, ch)];
    assert more[..|more| - 1] == changes;
    if ch.patch.Some? {
      var ps := PatchesOf(changes);
      var p := MergeMap.Patch(StampOf(c, ch), ch.patch.value);
      assert PatchesOf(more) == ps + [p] && (ps + [p])[..|ps|] == ps;
    } else {
      assert PatchesOf(more) == PatchesOf(changes);
    }
  }

  /** No two changes share a time and an origin. */
  ghost predicate StampsDiffer(changes: seq<Stored>)
  {
    forall a, b :: a in changes && b in changes && StampOf(a.cid, a.data) == StampOf(b.cid, b.data) ==> a == b
  }

  lemma {:induction false} StampsName(changes: seq<Stored>)
    requires StampsDiffer(changes)
    ensures MergeRuns.OneStampOnePatch(PatchesOf(changes))
  {
    var ps := PatchesOf(changes);
    forall p, q | p in ps && q in ps && p.stamp == q.stamp
      ensures p == q
    {
      PatchesFromChanges(changes, p);
      PatchesFromChanges(changes, q);
    }
  }

  /** What one set of changes writes, any other that has them all writes too. */
  lemma {:induction false} WrittenByAll(xs: seq<Stored>, ys: seq<Stored>, n: MergeKeys.Node)
    requires StampsDiffer(xs) && StampsDiffer(ys) && forall st :: st in xs ==> st in ys
    requires n in MergeRuns.RunOf(PatchesOf(xs))
    ensures n in MergeRuns.RunOf(PatchesOf(ys))
  {
    StampsName(xs);
    StampsName(ys);
    MergeRuns.RunIsWhatIsWritten(PatchesOf(xs));
    MergeRuns.RunIsWhatIsWritten(PatchesOf(ys));
    var p :| p in PatchesOf(xs) && MergeMap.Writes(p, n);
    PatchesFromChanges(xs, p);
    PatchesFromChanges(ys, p);
    assert MergeRuns.Written(PatchesOf(ys), n);
  }

  /** A change is a head unless another one applied depends on it. */
  lemma {:induction false} HeadUnlessDependedOn(g: Graph, c: Cid)
    requires Sound(g) && c in g.applied
    ensures c in g.heads <==> forall st :: st in g.changes ==> c !in st.data.deps
  {
    var i := g.applied[c];
    assert IndexWell(g, c) && (c in g.heads <==> Topmost(g, c));
    if Topmost(g, c) {
      forall st | st in g.changes
        ensures c !in st.data.deps
      {
        var j :| 0 <= j < |g.changes| && g.changes[j] == st;
        assert EdgesWell(g, j);
        assert c in st.data.deps ==> i in Indices(g.applied, st.data.deps);
        assert i !in g.deps[j];
      }
    } else {
      var j :| j in g.rdeps[i];
      assert i in g.deps[j] && EdgesWell(g, j);
      var x :| x in g.changes[j].data.deps && x in g.applied && g.applied[x] == i;
      assert IndexWell(g, x) && g.changes[j] in g.changes;
    }
  }

  lemma {:induction false} AppliedAreChanges(g: Graph, c: Cid)
    requires Sound(g)
    ensures c in g.applied <==> exists st :: st in g.changes && st.cid == c
  {
    if c in g.applied {
      assert IndexWell(g, c) && g.changes[g.applied[c]] in g.changes;
    }
    if st :| st in g.changes && st.cid == c {
      var j :| 0 <= j < |g.changes| && g.changes[j] == st;
      assert Placed(g, j);
    }
  }

  ghost predicate SameChanges(g: Graph, h: Graph)
  {
    forall st :: st in g.changes <==> st in h.changes
  }

  lemma {:induction false} SameChangesSameHeads(g: Graph, h: Graph, c: Cid)
    requires Sound(g) && Sound(h) && SameChanges(g, h)
    ensures (c in g.applied <==> c in h.applied) && (c in g.heads <==> c in h.heads)
  {
    AppliedAreChanges(g, c);
    AppliedAreChanges(h, c);
    if c in g.applied && c in h.applied {
      HeadUnlessDependedOn(g, c);
      HeadUnlessDependedOn(h, c);
    }
  }

  lemma {:induction false} NodesCarryOver(id: string, xs: seq<Call>, ys: seq<Call>, n: MergeKeys.Node)
    requires StampsDiffer(RunOf(id, xs).graph.changes) && StampsDiffer(RunOf(id, ys).graph.changes)
    requires SameChanges(RunOf(id, xs).graph, RunOf(id, ys).graph) && n in RunOf(id, xs).nodes
    ensures n in RunOf(id, ys).nodes
  {
    StateIsPatched(id, xs);
    StateIsPatched(id, ys);
    WrittenByAll(RunOf(id, xs).graph.changes, RunOf(id, ys).graph.changes, n);
  }

  lemma {:induction false} SameState(id: string, xs: seq<Call>, ys: seq<Call>)
    requires StampsDiffer(RunOf(id, xs).graph.changes) && StampsDiffer(RunOf(id, ys).graph.changes)
    requires SameChanges(RunOf(id, xs).graph, RunOf(id, ys).graph)
    ensures RunOf(id, xs).nodes == RunOf(id, ys).nodes
  {
    forall n
      ensures n in RunOf(id, xs).nodes <==> n in RunOf(id, ys).nodes
    {
      if n in RunOf(id, xs).nodes {
        NodesCarryOver(id, xs, ys, n);
      }
      if n in RunOf(id, ys).nodes {
        NodesCarryOver(id, ys, xs, n);
      }
    }
  }

  lemma {:induction false} SameGraph(g: Graph, h: Graph)
    requires Sound(g) && Sound(h) && SameChanges(g, h)
    ensures g.applied.Keys == h.applied.Keys && g.heads == h.heads
  {
    forall c
      ensures (c in g.applied.Keys <==> c in h.applied.Keys) && (c in g.heads <==> c in h.heads)
    {
      SameChangesSameHeads(g, h, c);
    }
  }

  /** Two replicas that accepted the same changes, in whatever order and with whatever refusals in
      between, hold the same state, know the same changes and are at the same version. */
  lemma {:induction false} ReplicasConverge(id: string, xs: seq<Call>, ys: seq<Call>)
    requires StampsDiffer(RunOf(id, xs).graph.changes)
    requires SameChanges(RunOf(id, xs).graph, RunOf(id, ys).graph)
    ensures LooksLike(RunOf(id, xs), RunOf(id, ys))
  {
    SameState(id, xs, ys);
    RunIsSound(id, xs);
    RunIsSound(id, ys);
    SameGraph(RunOf(id, xs).graph, RunOf(id, ys).graph);
  }

  // ---- Changes made with the clock of the entity ----

  /** A change on top of all heads with the clock's next timestamp is accepted unless its signer was
      seen at a later time, or the wall has not moved on from the very edge of the skew allowed; the
      change is then the only head. */
  lemma {:induction false} NextTimestampFits(id: string, calls: seq<Call>, c: Cid, ch: Change, wall: int, later: int)
    requires
      var s := RunOf(id, calls);
      && Int64.Fits(s.maxTime) && Int64.Fits(wall) && Hlc.Close(s.maxTime, wall) && s.maxTime < Int64.MAX_INT64
      && Hlc.NowAt(s.maxTime, wall) == Some(ch.time)
      && ch.entity == id && CidSet(ch.deps) == s.graph.heads && c !in s.graph.applied
    requires Int64.Fits(later) && Hlc.Close(ch.time, later)
    ensures
      var s := RunOf(id, calls);
      Accepts(id, s, Call(c, ch, later)) <==> TimeOf(s.times, ch.signer) <= ch.time && ch.time - later < Hlc.SKEW_MICROS
    ensures
      var s := RunOf(id, calls);
      Accepts(id, s, Call(c, ch, later)) ==> Step(id, s, Call(c, ch, later)).graph.heads == {c}
  {
    var s := RunOf(id, calls);
    RunIsSound(id, calls);
    Hlc.NowIsNext(s.maxTime, wall);
    Hlc.TrackIsMax(s.maxTime, ch.time, later);
    assert Hlc.ValidateSkew(ch.time, later).Some? <==> ch.time - later < Hlc.SKEW_MICROS by {
      Hlc.NowIsNext(ch.time, later);
    }
    assert s.graph.heads <= s.graph.applied.Keys;
    assert c !in CidSet(ch.deps);
  }

  ghost predicate NoneRefused(id: string, calls: seq<Call>)
  {
    forall k :: 0 <= k < |calls| ==> Accepts(id, RunOf(id, calls[..k]), calls[k])
  }

  /** As long as no change was refused no signer is ahead of the clock. */
  lemma {:induction false} SignersBehindClock(id: string, calls: seq<Call>, signer: string)
    requires NoneRefused(id, calls)
    ensures TimeOf(RunOf(id, calls).times, signer) <= RunOf(id, calls).maxTime
  {
    if calls != [] {
      var init := calls[..|calls| - 1];
      forall k | 0 <= k < |init|
        ensures Accepts(id, RunOf(id, init[..k]), init[k])
      {
        assert init[..k] == calls[..k] && init[k] == calls[k];
      }
      SignersBehindClock(id, init, signer);
      assert Accepts(id, RunOf(id, calls[..|calls| - 1]), calls[|calls| - 1]);
    }
  }

  /** A change refused for a missing dependency still moves the time of its signer, and bars an
      earlier change that would otherwise have been accepted. */
  lemma {:induction false} RefusedChangeBarsSigner()
    ensures
      var refused := Call("x", Change("e", "me", 5, ["missing"], None), 5);
      var later := Call("y", Change("e", "me", 1, [], None), 1);
      && !Accepts("e", NEW, refused) && Accepts("e", NEW, later)
      && Step("e", NEW, refused).graph == NEW.graph
      && Refusal("e", Step("e", NEW, refused), "y", later.change, 1) == Some(ActorOrder)
  {
    assert "missing" in CidSet(["missing"]);
    assert CidSet([]) == {};
    assert Hlc.ValidateSkew(1, 1) == Some(0);
  }
}

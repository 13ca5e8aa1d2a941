/** Histories of an entity in which changes are given and replaced in any order (backend/hyper/entity.go). */
module EntityHistories {
  import opened Options
  import opened EntityGraph
  import opened Entities
  import opened EntityRuns
  import EntityReplicas
  import MergeKeys
  import MergeMap

  // ---- Graphs that may hold changes no longer applied ----

  ghost function DataOf(g: Graph, c: Cid): Change
    requires c in g.applied && IndexWell(g, c)
  {
    g.changes[g.applied[c]].data
  }

  /** The edges of an applied change lead to the applied changes it depends on. */
  ghost predicate LiveAt(g: Graph, c: Cid)
    requires c in g.applied && |g.deps| == |g.changes|
  {
    && IndexWell(g, c) && CidSet(DataOf(g, c).deps) <= g.applied.Keys
    && g.deps[g.applied[c]] == Indices(g.applied, DataOf(g, c).deps)
  }

  /** Between applied changes there is an edge back exactly for a dependency. */
  ghost predicate BackAt(g: Graph, c: Cid, d: Cid)
    requires c in g.applied && d in g.applied && |g.rdeps| == |g.changes|
  {
    && IndexWell(g, c) && IndexWell(g, d)
    && (g.applied[d] in g.rdeps[g.applied[c]] <==> c in DataOf(g, d).deps)
  }

  /** What holds of the applied changes, whatever others are still in the lists. */
  ghost predicate Live(g: Graph)
  {
    && |g.deps| == |g.rdeps| == |g.changes|
    && (forall c :: c in g.applied ==> LiveAt(g, c))
    && (forall c, d :: c in g.applied && d in g.applied ==> BackAt(g, c, d))
    && (forall i, d :: 0 <= i < |g.changes| && d in g.rdeps[i] ==> d < |g.changes|)
  }

  lemma {:induction false} IndexNames(g: Graph, c: Cid, cids: seq<Cid>)
    requires c in g.applied && forall x :: x in g.applied ==> IndexWell(g, x)
    ensures g.applied[c] in Indices(g.applied, cids) <==> c in cids
  {
    if d :| d in cids && d in g.applied && g.applied[d] == g.applied[c] {
      assert IndexWell(g, c) && IndexWell(g, d);
    }
  }

  lemma {:induction false} SoundIsLive(g: Graph)
    requires Sound(g)
    ensures Live(g)
  {
    forall c | c in g.applied
      ensures LiveAt(g, c)
    {
      assert IndexWell(g, c) && EdgesWell(g, g.applied[c]);
    }
    forall c, d | c in g.applied && d in g.applied
      ensures BackAt(g, c, d)
    {
      assert IndexWell(g, c) && IndexWell(g, d) && EdgesWell(g, g.applied[d]);
      IndexNames(g, c, DataOf(g, d).deps);
    }
  }

  lemma {:induction false} StillApplied(g: Graph, c: Cid, ch: Change, x: Cid)
    requires Live(g) && CanAdd(g, c, ch) && x in g.applied
    ensures IndexWell(Added(g, c, ch), x) && DataOf(Added(g, c, ch), x) == DataOf(g, x) && c !in DataOf(g, x).deps
    ensures x != c && g.applied[x] < |g.changes|
  {
    assert LiveAt(g, x);
    var ds := DataOf(g, x).deps;
    assert c in ds ==> c in CidSet(ds);
  }

  lemma {:induction false} AddedKeepsLiveAt(g: Graph, c: Cid, ch: Change, x: Cid)
    requires Live(g) && CanAdd(g, c, ch) && x in Added(g, c, ch).applied
    ensures LiveAt(Added(g, c, ch), x)
  {
    var g' := Added(g, c, ch);
    if x != c {
      StillApplied(g, c, ch, x);
      assert LiveAt(g, x);
    }
    var ds := DataOf(g', x).deps;
    assert c !in ds by {
      assert c in ds ==> c in CidSet(ds);
    }
    assert Indices(g'.applied, ds) == Indices(g.applied, ds);
  }

  lemma {:induction false} AddedKeepsBackAt(g: Graph, c: Cid, ch: Change, x: Cid, y: Cid)
    requires Live(g) && CanAdd(g, c, ch) && x in Added(g, c, ch).applied && y in Added(g, c, ch).applied
    ensures BackAt(Added(g, c, ch), x, y)
  {
    var n, g' := |g.changes|, Added(g, c, ch);
    if x != c {
      StillApplied(g, c, ch, x);
      assert LiveAt(g, x) && forall d :: d in g.rdeps[g.applied[x]] ==> d < n;
      forall z | z in g.applied
        ensures IndexWell(g, z)
      {
        assert LiveAt(g, z);
      }
      IndexNames(g, x, ch.deps);
    }
    if y != c {
      StillApplied(g, c, ch, y);
    }
    assert x != c && y != c ==> BackAt(g, x, y);
    assert c !in ch.deps by {
      assert c in ch.deps ==> c in CidSet(ch.deps);
    }
  }

  lemma {:induction false} AddedKeepsLive(g: Graph, c: Cid, ch: Change)
    requires Live(g) && CanAdd(g, c, ch)
    ensures Live(Added(g, c, ch))
  {
    var g' := Added(g, c, ch);
    forall x | x in g'.applied
      ensures LiveAt(g', x)
    {
      AddedKeepsLiveAt(g, c, ch, x);
    }
    forall x, y | x in g'.applied && y in g'.applied
      ensures BackAt(g', x, y)
    {
      AddedKeepsBackAt(g, c, ch, x, y);
    }
  }

  ghost predicate NobodyNeeds(g: Graph, c: Cid)
  {
    forall x :: x in g.applied && IndexWell(g, x) ==> c !in DataOf(g, x).deps
  }

  lemma {:induction false} ForgottenKeepsLive(s: Snapshot, prev: Cid)
    requires Live(s.graph) && CanReplace(s, prev) && NobodyNeeds(s.graph, prev)
    ensures Live(Forgotten(s, prev).graph)
  {
    var g, g' := s.graph, Forgotten(s, prev).graph;
    forall x | x in g'.applied
      ensures LiveAt(g', x)
    {
      assert LiveAt(g, x);
      assert Indices(g'.applied, DataOf(g, x).deps) == Indices(g.applied, DataOf(g, x).deps);
    }
    forall x, y | x in g'.applied && y in g'.applied
      ensures BackAt(g', x, y)
    {
      assert BackAt(g, x, y);
    }
  }

  // ---- What a caller sees ----

  ghost predicate SameData(g: Graph, h: Graph, c: Cid)
    requires c in g.applied && c in h.applied
  {
    IndexWell(g, c) && IndexWell(h, c) && DataOf(g, c) == DataOf(h, c)
  }

  /** The same changes are applied, with the same heads. */
  ghost predicate SameApplied(g: Graph, h: Graph)
  {
    && g.applied.Keys == h.applied.Keys && g.heads == h.heads && g.heads <= g.applied.Keys
    && forall c :: c in g.applied ==> SameData(g, h, c)
  }

  /** Some head depends on it. */
  ghost predicate Collected(g: Graph, c: Cid)
  {
    c in g.applied && exists h :: h in g.heads && h in g.applied && IndexWell(g, h) && c in DataOf(g, h).deps
  }

  /** It is collected, and no collected one depends on it. */
  ghost predicate Returned(g: Graph, c: Cid)
  {
    Collected(g, c) && forall e :: Collected(g, e) && IndexWell(g, e) ==> c !in DataOf(g, e).deps
  }

  lemma {:induction false} CollectedCids(g: Graph, c: Cid)
    requires Live(g) && g.heads <= g.applied.Keys && c in g.applied
    ensures IndexWell(g, c) && (g.applied[c] in FullDeps(g) <==> Collected(g, c))
  {
    assert LiveAt(g, c);
    forall x | x in g.applied
      ensures IndexWell(g, x)
    {
      assert LiveAt(g, x);
    }
    if Collected(g, c) {
      var h :| h in g.heads && h in g.applied && IndexWell(g, h) && c in DataOf(g, h).deps;
      assert LiveAt(g, h);
      IndexNames(g, c, DataOf(g, h).deps);
    }
    if g.applied[c] in FullDeps(g) {
      var h :| h in g.heads && h in g.applied && g.applied[c] in g.deps[g.applied[h]];
      assert LiveAt(g, h);
      IndexNames(g, c, DataOf(g, h).deps);
    }
  }

  lemma {:induction false} CollectedIsNamed(g: Graph, d: nat) returns (c: Cid)
    requires Live(g) && g.heads <= g.applied.Keys && d in FullDeps(g)
    ensures c in g.applied && g.applied[c] == d && IndexWell(g, c) && g.changes[d].cid == c && Collected(g, c)
  {
    var h :| h in g.heads && h in g.applied && g.applied[h] < |g.deps| && d in g.deps[g.applied[h]];
    assert LiveAt(g, h);
    c :| c in DataOf(g, h).deps && c in g.applied && g.applied[c] == d;
    assert LiveAt(g, c);
  }

  /** Whatever else is still in the lists: the dependencies returned for several heads are told by the
      changes applied. */
  lemma {:induction false} ReturnedCids(g: Graph, c: Cid)
    requires Live(g) && g.heads <= g.applied.Keys
    ensures c in CidsAt(g, Reduced(g)) <==> Returned(g, c)
  {
    if c in CidsAt(g, Reduced(g)) {
      var d :| d in Reduced(g) && d < |g.changes| && g.changes[d].cid == c;
      var x := CollectedIsNamed(g, d);
      forall e | Collected(g, e) && IndexWell(g, e)
        ensures c !in DataOf(g, e).deps
      {
        CollectedCids(g, e);
        assert BackAt(g, c, e);
      }
    }
    if Returned(g, c) {
      CollectedCids(g, c);
      forall e | e in FullDeps(g)
        ensures e !in g.rdeps[g.applied[c]]
      {
        var x := CollectedIsNamed(g, e);
        assert BackAt(g, c, x);
      }
      assert g.applied[c] in Reduced(g);
    }
  }

  lemma {:induction false} SameCollected(g: Graph, h: Graph, c: Cid)
    requires SameApplied(g, h) && Collected(g, c)
    ensures Collected(h, c)
  {
    var x :| x in g.heads && x in g.applied && IndexWell(g, x) && c in DataOf(g, x).deps;
    assert SameData(g, h, x);
  }

  lemma {:induction false} SameReturned(g: Graph, h: Graph, c: Cid)
    requires SameApplied(g, h) && SameApplied(h, g) && Returned(g, c)
    ensures Returned(h, c)
  {
    SameCollected(g, h, c);
    forall e | Collected(h, e) && IndexWell(h, e)
      ensures c !in DataOf(h, e).deps
    {
      SameCollected(h, g, e);
      assert SameData(g, h, e);
    }
  }

  /** The same changes and heads give the same dependencies, in each of the cases that `Deps` tells apart. */
  ghost predicate SameDeps(g: Graph, h: Graph)
  {
    && CidsAt(g, Reduced(g)) == CidsAt(h, Reduced(h))
    && forall c :: g.heads == {c} ==>
        && c in g.applied && c in h.applied && IndexWell(g, c) && IndexWell(h, c)
        && DataOf(g, c).deps == DataOf(h, c).deps
  }

  lemma {:induction false} SameChangesSameDeps(g: Graph, h: Graph)
    requires Live(g) && Live(h) && SameApplied(g, h)
    ensures SameDeps(g, h)
  {
    forall c | c in h.applied
      ensures SameData(h, g, c)
    {
      assert SameData(g, h, c);
    }
    forall c
      ensures c in CidsAt(g, Reduced(g)) <==> c in CidsAt(h, Reduced(h))
    {
      ReturnedCids(g, c);
      ReturnedCids(h, c);
      if Returned(g, c) {
        SameReturned(g, h, c);
      }
      if Returned(h, c) {
        SameReturned(h, g, c);
      }
    }
    forall c | g.heads == {c}
      ensures c in g.applied && SameData(g, h, c)
    {
      assert c in g.heads;
    }
  }

  // ---- Histories ----

  /** What is done with an entity. */
  datatype Action = Give(call: Call) | Replace(r: Replacement)

  ghost function HistoryOf(id: string, actions: seq<Action>): (s: Snapshot)
    ensures |s.graph.rdeps| == |s.graph.changes|
  {
    if actions == [] then NEW
    else Done(id, HistoryOf(id, actions[..|actions| - 1]), actions[|actions| - 1])
  }

  ghost function Done(id: string, s: Snapshot, a: Action): (s': Snapshot)
    requires |s.graph.rdeps| == |s.graph.changes|
    ensures |s'.graph.rdeps| == |s'.graph.changes|
  {
    match a
    case Give(call) => Step(id, s, call)
    case Replace(r) => AfterReplace(id, s, r)
  }

  /** Replacing does not bring in changes of other entities either. */
  lemma {:induction false} HistoryIsOwn(id: string, actions: seq<Action>)
    ensures OwnOnly(id, HistoryOf(id, actions).graph)
  {
    if actions != [] {
      var n := |actions| - 1;
      var s := HistoryOf(id, actions[..n]);
      HistoryIsOwn(id, actions[..n]);
      match actions[n]
      case Give(call) => StaysOwn(id, s, call);
      case Replace(r) =>
        if CanReplace(s, r.prev) && InPlace(id, s, r).Some? {
          StaysOwn(id, Forgotten(s, r.prev), InPlace(id, s, r).value);
        }
    }
  }

  /** The call that puts a change in place of the only head. */
  ghost function InPlace(id: string, s: Snapshot, r: Replacement): Option<Call>
    requires CanReplace(s, r.prev)
  {
    match InPlaceOf(id, DataOf(s.graph, r.prev), r)
    case None => None
    case Some(ch) => Some(Call(r.cid, ch, r.wall))
  }

  /** The old change is forgotten and the new one takes its place. */
  ghost predicate Succeeds(id: string, s: Snapshot, r: Replacement)
    requires CanReplace(s, r.prev)
  {
    var call := InPlace(id, s, r);
    call.Some? && Accepts(id, Forgotten(s, r.prev), call.value)
  }

  /** No other change applied has the stamp of this one. */
  ghost predicate OwnStamp(g: Graph, c: Cid)
    requires c in g.applied && IndexWell(g, c)
  {
    forall x :: x in g.applied && IndexWell(g, x) && x != c ==> StampOf(x, DataOf(g, x)) != StampOf(c, DataOf(g, c))
  }

  /** A replacement that the guards let through succeeds, and takes back the values of one change only. */
  ghost predicate SmoothAt(id: string, s: Snapshot, a: Action)
  {
    a.Replace? && CanReplace(s, a.r.prev) ==> Succeeds(id, s, a.r) && OwnStamp(s.graph, a.r.prev)
  }

  ghost predicate Smooth(id: string, actions: seq<Action>)
  {
    forall i :: 0 <= i < |actions| ==> SmoothAt(id, HistoryOf(id, actions[..i]), actions[i])
  }

  /** The accepted calls, each replaced one with the one that took its place. */
  ghost function Kept(id: string, actions: seq<Action>): seq<Call>
  {
    if actions == [] then []
    else
      var n := |actions| - 1;
      KeptAfter(id, HistoryOf(id, actions[..n]), Kept(id, actions[..n]), actions[n])
  }

  ghost function KeptAfter(id: string, s: Snapshot, kept: seq<Call>, a: Action): seq<Call>
  {
    match a
    case Give(call) => if Accepts(id, s, call) then kept + [call] else kept
    case Replace(r) =>
      if CanReplace(s, r.prev) && Succeeds(id, s, r) && kept != []
      then kept[..|kept| - 1] + [InPlace(id, s, r).value] else kept
  }

  ghost predicate AcceptedAt(id: string, calls: seq<Call>, i: nat)
    requires i < |calls|
  {
    Accepts(id, RunOf(id, calls[..i]), calls[i])
  }

  ghost predicate AllAccepted(id: string, calls: seq<Call>)
  {
    forall i :: 0 <= i < |calls| ==> AcceptedAt(id, calls, i)
  }

  /** The entity shows the same as the other, but its clock and its signers may be ahead. */
  ghost predicate ShowsAs(s: Snapshot, t: Snapshot)
  {
    && Live(s.graph) && Sound(t.graph) && SameApplied(s.graph, t.graph) && s.nodes == t.nodes
    && Ahead(s, t)
  }

  predicate Ahead(s: Snapshot, t: Snapshot)
  {
    0 <= t.maxTime <= s.maxTime && TimesGrow(t.times, s.times)
  }

  lemma {:induction false} AcceptedBehind(id: string, s: Snapshot, t: Snapshot, call: Call)
    requires Ahead(s, t) && s.graph.applied.Keys == t.graph.applied.Keys && Accepts(id, s, call)
    ensures Accepts(id, t, call)
  {
  }

  lemma {:induction false} AcceptedSnoc(id: string, calls: seq<Call>, call: Call)
    requires AllAccepted(id, calls) && Accepts(id, RunOf(id, calls), call)
    ensures AllAccepted(id, calls + [call]) && RunOf(id, calls + [call]) == Step(id, RunOf(id, calls), call)
  {
    var more := calls + [call];
    assert more[..|calls|] == calls;
    forall i | 0 <= i < |more|
      ensures AcceptedAt(id, more, i)
    {
      if i < |calls| {
        assert AcceptedAt(id, calls, i) && more[..i] == calls[..i];
      }
    }
  }

  lemma {:induction false} AcceptedInit(id: string, calls: seq<Call>)
    requires AllAccepted(id, calls) && calls != []
    ensures AllAccepted(id, calls[..|calls| - 1])
    ensures Accepts(id, RunOf(id, calls[..|calls| - 1]), calls[|calls| - 1])
  {
    var init := calls[..|calls| - 1];
    assert AcceptedAt(id, calls, |calls| - 1);
    forall i | 0 <= i < |init|
      ensures AcceptedAt(id, init, i)
    {
      assert AcceptedAt(id, calls, i) && init[..i] == calls[..i];
    }
  }

  lemma {:induction false} SameAppliedAdded(g: Graph, h: Graph, g': Graph, h': Graph, c: Cid, ch: Change)
    requires Live(g) && Live(h) && g.applied.Keys == h.applied.Keys && CanAdd(g, c, ch)
    requires forall x :: x in g.applied ==> SameData(g, h, x)
    requires g' == Added(g, c, ch) && h' == Added(h, c, ch) && g'.heads == h'.heads && g'.heads <= g'.applied.Keys
    ensures SameApplied(g', h')
  {
    forall x | x in g'.applied
      ensures SameData(g', h', x)
    {
      if x != c {
        StillApplied(g, c, ch, x);
        StillApplied(h, c, ch, x);
        assert SameData(g, h, x);
      }
    }
  }

  lemma {:induction false} AcceptedStep(id: string, s: Snapshot, s': Snapshot, call: Call)
    requires |s.graph.rdeps| == |s.graph.changes| && Accepts(id, s, call) && s' == Step(id, s, call)
    ensures s'.graph == Added(s.graph, call.cid, call.change) && s'.nodes == Patched(s.nodes, call.cid, call.change)
    ensures s'.times == s.times[call.change.signer := call.change.time] && s'.maxTime == call.change.time >= s.maxTime
    ensures CanAdd(s.graph, call.cid, call.change)
  {
  }

  lemma {:induction false} BothAhead(s: Snapshot, t: Snapshot, s': Snapshot, t': Snapshot, signer: string, time: int)
    requires Ahead(s, t) && s'.maxTime == t'.maxTime == time >= t.maxTime
    requires s'.times == s.times[signer := time] && t'.times == t.times[signer := time]
    ensures Ahead(s', t')
  {
  }

  /** Two graphs with the same change on top of what was the same but for heads. */
  lemma {:induction false} BothAdded(id: string, s: Snapshot, t: Snapshot, s': Snapshot, t': Snapshot, call: Call)
    requires Live(s.graph) && Sound(t.graph) && s.nodes == t.nodes && Ahead(s, t)
    requires s.graph.applied.Keys == t.graph.applied.Keys && Accepts(id, s, call) && Accepts(id, t, call)
    requires s' == Step(id, s, call) && t' == Step(id, t, call) && SameApplied(s'.graph, t'.graph)
    ensures ShowsAs(s', t')
  {
    AcceptedStep(id, s, s', call);
    AcceptedStep(id, t, t', call);
    AddedKeepsLive(s.graph, call.cid, call.change);
    AddedKeepsSound(t.graph, call.cid, call.change);
    BothAhead(s, t, s', t', call.change.signer, call.change.time);
  }

  /** An accepted change makes the same difference to both. */
  lemma {:induction false} GivenToBoth(id: string, s: Snapshot, t: Snapshot, call: Call)
    requires ShowsAs(s, t) && Accepts(id, s, call)
    ensures Accepts(id, t, call) && ShowsAs(Step(id, s, call), Step(id, t, call))
  {
    var s' := Step(id, s, call);
    AcceptedBehind(id, s, t, call);
    SoundIsLive(t.graph);
    AcceptedStep(id, s, s', call);
    AcceptedStep(id, t, Step(id, t, call), call);
    SameAppliedAdded(s.graph, t.graph, s'.graph, Step(id, t, call).graph, call.cid, call.change);
    BothAdded(id, s, t, s', Step(id, t, call), call);
  }

  lemma {:induction false} RefusedBySome(id: string, s: Snapshot, t: Snapshot, call: Call)
    requires ShowsAs(s, t) && !Accepts(id, s, call)
    ensures ShowsAs(Step(id, s, call), t)
  {
  }

  // ---- One replacement ----

  /** The last call kept is that of the only head. */
  lemma {:induction false} LastIsHead(id: string, calls: seq<Call>, prev: Cid)
    requires AllAccepted(id, calls) && RunOf(id, calls).graph.heads == {prev}
    ensures calls != [] && prev in RunOf(id, calls).graph.applied && IndexWell(RunOf(id, calls).graph, prev)
    ensures
      var before, last := RunOf(id, calls[..|calls| - 1]), calls[|calls| - 1];
      && last.cid == prev && DataOf(RunOf(id, calls).graph, prev) == last.change
      && AllAccepted(id, calls[..|calls| - 1]) && Accepts(id, before, last)
      && RunOf(id, calls) == Step(id, before, last)
  {
    var g := RunOf(id, calls).graph;
    assert prev in g.heads;
    RunIsSound(id, calls);
    AllReachTheOnlyHead(g, prev);
    AcceptedInit(id, calls);
  }

  /** The one shows the same as the other, but that its heads are gone. */
  ghost predicate HeadlessAs(f: Snapshot, t: Snapshot)
  {
    && Live(f.graph) && Sound(t.graph) && f.graph.heads == {} && f.nodes == t.nodes && Ahead(f, t)
    && f.graph.applied.Keys == t.graph.applied.Keys
    && forall x :: x in f.graph.applied ==> SameData(f.graph, t.graph, x)
  }

  lemma {:induction false} NobodyNeedsLast(g: Graph, h: Graph, c: Cid, ch: Change)
    requires Live(h) && CanAdd(h, c, ch) && SameApplied(g, Added(h, c, ch))
    ensures NobodyNeeds(g, c)
  {
    forall x | x in g.applied && IndexWell(g, x)
      ensures c !in DataOf(g, x).deps
    {
      NotNeeded(h, c, ch, x);
      assert SameData(g, Added(h, c, ch), x);
    }
  }

  lemma {:induction false} SameWithoutLast(g: Graph, f: Graph, h: Graph, c: Cid, ch: Change, x: Cid)
    requires Live(h) && CanAdd(h, c, ch) && SameApplied(g, Added(h, c, ch)) && x in h.applied
    requires f == g.(applied := g.applied - {c}, heads := g.heads - {c})
    ensures x in f.applied && SameData(f, h, x)
  {
    StillApplied(h, c, ch, x);
    assert SameData(g, Added(h, c, ch), x);
  }

  lemma {:induction false} HeadsWereNeeded(g: Graph, c: Cid, ch: Change)
    requires Sound(g) && CanAdd(g, c, ch) && Added(g, c, ch).heads == {c}
    ensures g.heads <= CidSet(ch.deps)
  {
    forall h | h in g.heads
      ensures h in CidSet(ch.deps)
    {
      assert h in g.applied && h != c && h !in Added(g, c, ch).heads;
    }
  }

  /** Forgetting the last change leaves what was applied before it, without heads. */
  lemma {:induction false} ForgottenShows(id: string, s: Snapshot, before: Snapshot, last: Call)
    requires Sound(before.graph) && 0 <= before.maxTime && ShowsAs(s, Step(id, before, last))
    requires Accepts(id, before, last) && CanReplace(s, last.cid) && NoOther(before.nodes, StampOf(last.cid, last.change))
    ensures HeadlessAs(Forgotten(s, last.cid), before) && before.graph.heads <= CidSet(last.change.deps)
  {
    var t, f := Step(id, before, last), Forgotten(s, last.cid);
    AcceptedStep(id, before, t, last);
    SoundIsLive(before.graph);
    NobodyNeedsLast(s.graph, before.graph, last.cid, last.change);
    ForgottenKeepsLive(s, last.cid);
    HeadsWereNeeded(before.graph, last.cid, last.change);
    assert SameData(s.graph, t.graph, last.cid);
    ForgottenNodes(before.nodes, last.cid, last.change);
    WithoutLast(s.graph, f.graph, before.graph, last.cid, last.change);
  }

  lemma {:induction false} WithoutLast(g: Graph, f: Graph, h: Graph, c: Cid, ch: Change)
    requires Live(h) && CanAdd(h, c, ch) && SameApplied(g, Added(h, c, ch))
    requires f == g.(applied := g.applied - {c}, heads := g.heads - {c})
    ensures f.applied.Keys == h.applied.Keys && forall x :: x in f.applied ==> SameData(f, h, x)
  {
    forall x | x in h.applied
      ensures x in f.applied && SameData(f, h, x)
    {
      SameWithoutLast(g, f, h, c, ch, x);
    }
  }

  lemma {:induction false} NotNeeded(g: Graph, c: Cid, ch: Change, x: Cid)
    requires Live(g) && CanAdd(g, c, ch) && x in Added(g, c, ch).applied
    ensures IndexWell(Added(g, c, ch), x) && c !in DataOf(Added(g, c, ch), x).deps
  {
    if x == c {
      assert c in ch.deps ==> c in CidSet(ch.deps);
    } else {
      StillApplied(g, c, ch, x);
    }
  }

  lemma {:induction false} OnlyHeadAgain(g: Graph, h: Graph, c: Cid, ch: Change)
    requires Live(g) && Live(h) && g.applied.Keys == h.applied.Keys && CanAdd(g, c, ch)
    requires forall x :: x in g.applied ==> SameData(g, h, x)
    requires g.heads == {} && h.heads <= CidSet(ch.deps)
    ensures SameApplied(Added(g, c, ch), Added(h, c, ch))
  {
    assert c !in CidSet(ch.deps);
    assert Added(g, c, ch).heads == {c} == Added(h, c, ch).heads;
    SameAppliedAdded(g, h, Added(g, c, ch), Added(h, c, ch), c, ch);
  }

  /** A change that depends on all heads makes up for their loss. */
  lemma {:induction false} HeadsAgain(id: string, f: Snapshot, t: Snapshot, now: Call)
    requires HeadlessAs(f, t) && Accepts(id, f, now) && t.graph.heads <= CidSet(now.change.deps)
    ensures Accepts(id, t, now) && ShowsAs(Step(id, f, now), Step(id, t, now))
  {
    var f' := Step(id, f, now);
    AcceptedBehind(id, f, t, now);
    SoundIsLive(t.graph);
    AcceptedStep(id, f, f', now);
    AcceptedStep(id, t, Step(id, t, now), now);
    OnlyHeadAgain(f.graph, t.graph, now.cid, now.change);
    BothAdded(id, f, t, f', Step(id, t, now), now);
  }

  lemma {:induction false} OtherStamp(g: Graph, before: Graph, last: Call, i: nat)
    requires Sound(before) && CanAdd(before, last.cid, last.change) && i < |before.changes|
    requires g.applied.Keys == before.applied.Keys + {last.cid}
    requires forall x :: x in g.applied ==> SameData(g, Added(before, last.cid, last.change), x)
    requires last.cid in g.applied && IndexWell(g, last.cid) && OwnStamp(g, last.cid)
    ensures StampOf(before.changes[i].cid, before.changes[i].data) != StampOf(last.cid, last.change)
  {
    var x := before.changes[i].cid;
    assert Placed(before, i);
    assert SameData(g, Added(before, last.cid, last.change), x);
    assert SameData(g, Added(before, last.cid, last.change), last.cid);
  }

  lemma {:induction false} OwnStampIsAlone(id: string, calls: seq<Call>, last: Call, g: Graph)
    requires Accepts(id, RunOf(id, calls), last)
    requires g.applied.Keys == RunOf(id, calls).graph.applied.Keys + {last.cid}
    requires forall x :: x in g.applied ==> SameData(g, Added(RunOf(id, calls).graph, last.cid, last.change), x)
    requires last.cid in g.applied && IndexWell(g, last.cid) && OwnStamp(g, last.cid)
    ensures NoOther(RunOf(id, calls).nodes, StampOf(last.cid, last.change))
  {
    var before := RunOf(id, calls);
    RunIsSound(id, calls);
    forall n | n in before.nodes
      ensures n.key.Stamped() != StampOf(last.cid, last.change)
    {
      NodesAreFromChanges(id, calls, n);
      var i :| 0 <= i < |before.graph.changes|
               && StampOf(before.graph.changes[i].cid, before.graph.changes[i].data) == n.key.Stamped();
      OtherStamp(g, before.graph, last, i);
    }
  }

  /** Forgetting the only head of a history leaves what was there before it, without heads. */
  lemma {:induction false} LastForgotten(id: string, s: Snapshot, kept: seq<Call>, prev: Cid)
    requires ShowsAs(s, RunOf(id, kept)) && AllAccepted(id, kept)
    requires CanReplace(s, prev) && OwnStamp(s.graph, prev)
    ensures kept != []
    ensures
      var init, last := kept[..|kept| - 1], kept[|kept| - 1];
      && AllAccepted(id, init) && HeadlessAs(Forgotten(s, prev), RunOf(id, init))
      && RunOf(id, init).graph.heads <= CidSet(DataOf(s.graph, prev).deps)
  {
    LastIsHead(id, kept, prev);
    var init, last := kept[..|kept| - 1], kept[|kept| - 1];
    RunIsSound(id, init);
    RunIsTimely(id, init);
    AcceptedStep(id, RunOf(id, init), RunOf(id, kept), last);
    OwnStampIsAlone(id, init, last, s.graph);
    ForgottenShows(id, s, RunOf(id, init), last);
    assert SameData(s.graph, RunOf(id, kept).graph, prev);
  }

  /** What a replacement that goes through does to both. */
  lemma {:induction false} ReplacedInBoth(id: string, s: Snapshot, kept: seq<Call>, r: Replacement)
    requires ShowsAs(s, RunOf(id, kept)) && AllAccepted(id, kept) && CanReplace(s, r.prev)
    requires Succeeds(id, s, r) && OwnStamp(s.graph, r.prev)
    ensures
      var next := KeptAfter(id, s, kept, Replace(r));
      AllAccepted(id, next) && ShowsAs(AfterReplace(id, s, r), RunOf(id, next))
  {
    var now := InPlace(id, s, r).value;
    LastForgotten(id, s, kept, r.prev);
    SortedSet(DataOf(s.graph, r.prev).deps);
    HeadsAgain(id, Forgotten(s, r.prev), RunOf(id, kept[..|kept| - 1]), now);
    AcceptedSnoc(id, kept[..|kept| - 1], now);
  }

  lemma {:induction false} DoneToBoth(id: string, s: Snapshot, kept: seq<Call>, a: Action)
    requires ShowsAs(s, RunOf(id, kept)) && AllAccepted(id, kept) && SmoothAt(id, s, a)
    ensures
      var next := KeptAfter(id, s, kept, a);
      AllAccepted(id, next) && ShowsAs(Done(id, s, a), RunOf(id, next))
  {
    match a
    case Give(call) =>
      if Accepts(id, s, call) {
        GivenToBoth(id, s, RunOf(id, kept), call);
        AcceptedSnoc(id, kept, call);
      } else {
        RefusedBySome(id, s, RunOf(id, kept), call);
      }
    case Replace(r) =>
      if CanReplace(s, r.prev) {
        ReplacedInBoth(id, s, kept, r);
      }
  }

  /** After any calls and replacements the entity shows what it would show had the replaced changes never been
      given: the same state, changes applied, heads and dependencies for the next change. The old changes are
      still in its lists, but nothing tells. */
  lemma {:induction false} ReplacedLeaveNoTrace(id: string, actions: seq<Action>)
    requires Smooth(id, actions)
    ensures AllAccepted(id, Kept(id, actions))
    ensures ShowsAs(HistoryOf(id, actions), RunOf(id, Kept(id, actions)))
    ensures SameDeps(HistoryOf(id, actions).graph, RunOf(id, Kept(id, actions)).graph)
  {
    if actions != [] {
      var n := |actions| - 1;
      var init := actions[..n];
      forall i | 0 <= i < |init|
        ensures SmoothAt(id, HistoryOf(id, init[..i]), init[i])
      {
        assert init[..i] == actions[..i] && SmoothAt(id, HistoryOf(id, actions[..i]), actions[i]);
      }
      ReplacedLeaveNoTrace(id, init);
      assert SmoothAt(id, HistoryOf(id, actions[..n]), actions[n]);
      DoneToBoth(id, HistoryOf(id, init), Kept(id, init), actions[n]);
    }
    SoundIsLive(RunOf(id, Kept(id, actions)).graph);
    SameChangesSameDeps(HistoryOf(id, actions).graph, RunOf(id, Kept(id, actions)).graph);
  }

  // ---- A replacement that fails ----

  lemma {:induction false} HeadsIfAny(g: Graph)
    requires Sound(g)
    ensures g.heads == {} <==> g.applied.Keys == {}
  {
    if c :| c in g.applied {
      assert IndexWell(g, c);
      var h := EveryChangeUnderAHead(g, g.applied[c]);
    }
  }

  /** A replacement that fails once the old change is forgotten leaves what was there before that change
      exactly if it was the only one: else the heads are lost. */
  lemma {:induction false} FailedReplacement(id: string, s: Snapshot, kept: seq<Call>, r: Replacement)
    requires ShowsAs(s, RunOf(id, kept)) && AllAccepted(id, kept) && CanReplace(s, r.prev)
    requires !Succeeds(id, s, r) && OwnStamp(s.graph, r.prev)
    ensures kept != [] && HeadlessAs(AfterReplace(id, s, r), RunOf(id, kept[..|kept| - 1]))
    ensures SameApplied(AfterReplace(id, s, r).graph, RunOf(id, kept[..|kept| - 1]).graph) <==>
            s.graph.applied.Keys == {r.prev}
  {
    LastForgotten(id, s, kept, r.prev);
    var before := RunOf(id, kept[..|kept| - 1]);
    AfterFailure(id, s, r, before);
    HeadsIfAny(before.graph);
    assert before.graph.applied.Keys == s.graph.applied.Keys - {r.prev};
  }

  lemma {:induction false} AfterFailure(id: string, s: Snapshot, r: Replacement, before: Snapshot)
    requires |s.graph.rdeps| == |s.graph.changes| && CanReplace(s, r.prev) && !Succeeds(id, s, r)
    requires HeadlessAs(Forgotten(s, r.prev), before)
    ensures HeadlessAs(AfterReplace(id, s, r), before)
  {
  }
}

/** Entities and the changes applied to them (backend/hyper/entity.go). */
module Entities {
  import opened Options
  import opened EntityGraph
  import Hlc
  import Lex
  import MergeKeys
  import MergeMap

  datatype Error =
    | OtherEntity | AlreadyApplied | ActorOrder | OutOfOrder | MissingDep | AheadOfWall
    | ManyHeads | NotTheHead | NotApplied | NotMade

  /** The last characters of a CID. */
  function Origin(c: Cid): string
  {
    if |c| <= 9 then c else c[|c| - 9..]
  }

  lemma {:induction false} OriginIsEnd(c: Cid)
    ensures |Origin(c)| == if |c| < 9 then |c| else 9
    ensures exists front :: c == front + Origin(c)
  {
    assert c == (if |c| <= 9 then "" else c[..|c| - 9]) + Origin(c);
  }

  function StampOf(c: Cid, ch: Change): MergeKeys.Stamp
  {
    MergeKeys.Stamp(ch.time, Origin(c))
  }

  /** All that an entity holds. */
  datatype Snapshot = Snapshot(graph: Graph, times: map<string, int>, maxTime: int, nodes: iset<MergeKeys.Node>)

  const NEW := Snapshot(EMPTY, map[], 0, iset{})

  function TimeOf(times: map<string, int>, signer: string): int
  {
    if signer in times then times[signer] else 0
  }

  /** Why a change is refused, if it is. */
  function Refusal(id: string, s: Snapshot, c: Cid, ch: Change, wall: int): Option<Error>
  {
    if ch.entity != id then Some(OtherEntity)
    else if c in s.graph.applied then Some(AlreadyApplied)
    else if ch.time < TimeOf(s.times, ch.signer) then Some(ActorOrder)
    else if ch.time < s.maxTime then Some(OutOfOrder)
    else if !(CidSet(ch.deps) <= s.graph.applied.Keys) then Some(MissingDep)
    else if Hlc.ValidateSkew(ch.time, wall) == None then Some(AheadOfWall)
    else None
  }

  ghost function Patched(nodes: iset<MergeKeys.Node>, c: Cid, ch: Change): iset<MergeKeys.Node>
  {
    if ch.patch.Some? then MergeMap.Overlay(nodes, MergeMap.Patch(StampOf(c, ch), ch.patch.value)) else nodes
  }

  /** The entity after being given a change. Of a refused one it keeps at most the time of its signer. */
  ghost function After(id: string, s: Snapshot, c: Cid, ch: Change, wall: int): Snapshot
    requires |s.graph.rdeps| == |s.graph.changes|
  {
    match Refusal(id, s, c, ch, wall)
    case None =>
      Snapshot(Added(s.graph, c, ch), s.times[ch.signer := ch.time], ch.time, Patched(s.nodes, c, ch))
    case Some(e) =>
      if e == OtherEntity || e == AlreadyApplied || e == ActorOrder then s
      else s.(times := s.times[ch.signer := ch.time])
  }

  // ---- What giving a change to an entity comes to ----

  /** A new change of the entity, behind all its dependencies, not older than the last one applied or the last one
      of its signer, nor ahead of the wall. */
  predicate CanApply(id: string, s: Snapshot, c: Cid, ch: Change, wall: int)
  {
    && ch.entity == id && c !in s.graph.applied && (forall d :: d in ch.deps ==> d in s.graph.applied)
    && s.maxTime <= ch.time && (if ch.signer in s.times then s.times[ch.signer] else 0) <= ch.time
    && Hlc.ValidateSkew(ch.time, wall).Some?
  }

  /** What is the matter with a change refused for that reason. */
  predicate Blames(e: Error, id: string, s: Snapshot, c: Cid, ch: Change, wall: int)
  {
    match e
    case OtherEntity => ch.entity != id
    case AlreadyApplied => c in s.graph.applied
    case ActorOrder => ch.time < if ch.signer in s.times then s.times[ch.signer] else 0
    case OutOfOrder => ch.time < s.maxTime
    case MissingDep => exists d :: d in ch.deps && d !in s.graph.applied
    case AheadOfWall => Hlc.ValidateSkew(ch.time, wall) == None
    case _ => false
  }

  /** The order in which things are checked. */
  function BlameRank(e: Error): nat
  {
    match e
    case OtherEntity => 0
    case AlreadyApplied => 1
    case ActorOrder => 2
    case OutOfOrder => 3
    case MissingDep => 4
    case AheadOfWall => 5
    case _ => 6
  }

  /** The first thing that is the matter is blamed. */
  ghost predicate Blamed(e: Error, id: string, s: Snapshot, c: Cid, ch: Change, wall: int)
  {
    Blames(e, id, s, c, ch, wall) && forall f :: BlameRank(f) < BlameRank(e) ==> !Blames(f, id, s, c, ch, wall)
  }

  /** There is an edge to each dependency and back. */
  ghost predicate EdgesAdded(g: Graph, g': Graph, ch: Change)
  {
    var n := |g.changes|;
    && |g.rdeps| == n && |g'.deps| == |g.deps| + 1 && |g'.rdeps| == n + 1 && g'.deps[..|g.deps|] == g.deps
    && (forall i :: i in g'.deps[|g.deps|] <==> exists d :: d in ch.deps && d in g.applied && g.applied[d] == i)
    && forall i, j :: 0 <= i <= n ==>
        (j in g'.rdeps[i] <==> (i < n && j in g.rdeps[i]) || (j == n && i in g'.deps[|g.deps|]))
  }

  /** The change is the last one, and a head in place of those it depends on; its values are in the state. */
  ghost predicate Applied(s: Snapshot, s': Snapshot, c: Cid, ch: Change)
  {
    var g, g' := s.graph, s'.graph;
    && g'.changes == g.changes + [Stored(c, ch)] && g'.applied == g.applied[c := |g.changes|]
    && (forall h :: h in g'.heads <==> (h in g.heads || h == c) && h !in ch.deps) && EdgesAdded(g, g', ch)
    && s'.times == s.times[ch.signer := ch.time] && s'.maxTime == ch.time
    && s'.nodes == if ch.patch == None then s.nodes
                   else MergeMap.Overlay(s.nodes, MergeMap.Patch(StampOf(c, ch), ch.patch.value))
  }

  /** Of a refused change at most the time of its signer stays: if it was not the first of these to be wrong. */
  ghost predicate LeftAlone(s: Snapshot, s': Snapshot, ch: Change, e: Error)
  {
    && s'.graph == s.graph && s'.nodes == s.nodes && s'.maxTime == s.maxTime
    && s'.times == if BlameRank(e) <= BlameRank(ActorOrder) then s.times else s.times[ch.signer := ch.time]
  }

  lemma {:induction false} DepsApplied(s: Snapshot, ch: Change)
    ensures CidSet(ch.deps) <= s.graph.applied.Keys <==> forall d :: d in ch.deps ==> d in s.graph.applied
  {
    forall d | d in ch.deps
      ensures d in CidSet(ch.deps)
    {
    }
  }

  lemma {:induction false} RefusalMeans(id: string, s: Snapshot, c: Cid, ch: Change, wall: int)
    ensures Refusal(id, s, c, ch, wall) == None <==> CanApply(id, s, c, ch, wall)
    ensures Refusal(id, s, c, ch, wall).Some? ==> Blamed(Refusal(id, s, c, ch, wall).value, id, s, c, ch, wall)
  {
    DepsApplied(s, ch);
  }

  lemma {:induction false} AddedEdges(g: Graph, c: Cid, ch: Change)
    requires |g.deps| == |g.rdeps| == |g.changes|
    ensures EdgesAdded(g, Added(g, c, ch), ch)
  {
    var n, g', ds := |g.changes|, Added(g, c, ch), Indices(g.applied, ch.deps);
    assert g'.deps[n] == ds && g'.deps[..n] == g.deps;
    forall i, j | 0 <= i <= n
      ensures j in g'.rdeps[i] <==> (i < n && j in g.rdeps[i]) || (j == n && i in ds)
    {
    }
  }

  lemma {:induction false} ChangeTakesEffect(id: string, s: Snapshot, c: Cid, ch: Change, wall: int)
    requires |s.graph.deps| == |s.graph.rdeps| == |s.graph.changes|
    ensures CanApply(id, s, c, ch, wall) ==> Applied(s, After(id, s, c, ch, wall), c, ch)
    ensures !CanApply(id, s, c, ch, wall) ==>
      Refusal(id, s, c, ch, wall).Some? && LeftAlone(s, After(id, s, c, ch, wall), ch, Refusal(id, s, c, ch, wall).value)
  {
    RefusalMeans(id, s, c, ch, wall);
    AddedEdges(s.graph, c, ch);
  }

  // ---- Lists of indices ----

  function Elements(s: seq<nat>): set<nat>
  {
    set x | x in s
  }

  ghost function Below(n: nat): (s: set<nat>)
    ensures forall i :: i in s <==> 0 <= i < n
  {
    if n == 0 then {} else Below(n - 1) + {n - 1}
  }

  /** The list has the number as well now, if it is to have it. */
  predicate WithBack(before: seq<nat>, after: seq<nat>, wanted: bool, n: nat)
  {
    Elements(after) == Elements(before) + if wanted then {n} else {}
  }

  function SetsOf(lists: seq<seq<nat>>): seq<set<nat>>
  {
    seq(|lists|, i requires 0 <= i < |lists| => Elements(lists[i]))
  }

  /** The index of the first element that is not below the number, or the length of the list. */
  function FirstNotBelow(s: seq<nat>, v: nat): (i: nat)
    ensures i <= |s| && (i < |s| ==> v <= s[i]) && forall j :: 0 <= j < i ==> s[j] < v
  {
    if s == [] || v <= s[0] then 0 else 1 + FirstNotBelow(s[1..], v)
  }

  /** The number goes in front of the first greater one, unless it is found before that, or to the very
      front if there is none. */
  function WithUnique(s: seq<nat>, v: nat): (out: seq<nat>)
    ensures forall x :: x in out <==> x in s || x == v
  {
    var i := FirstNotBelow(s, v);
    if i == |s| then [v] + s
    else if s[i] == v then s
    else
      assert s == s[..i] + s[i..];
      s[..i] + [v] + s[i..]
  }

  method AddUnique(s: seq<nat>, v: nat) returns (out: seq<nat>)
    ensures out == WithUnique(s, v)
    ensures Elements(out) == Elements(s) + {v}
  {
    var targetIndex := 0;
    for i := 0 to |s|
      invariant targetIndex == 0 && forall j :: 0 <= j < i ==> s[j] < v
    {
      if s[i] == v {
        FirstIs(s, v, i);
        return s;
      }
      if s[i] > v {
        targetIndex := i;
        FirstIs(s, v, i);
        break;
      }
    }
    out := s[..targetIndex] + [v] + s[targetIndex..];
  }

  lemma {:induction false} FirstIs(s: seq<nat>, v: nat, i: nat)
    requires i < |s| && v <= s[i] && forall j :: 0 <= j < i ==> s[j] < v
    ensures FirstNotBelow(s, v) == i
  {
  }

  predicate Ascending(s: seq<nat>)
  {
    forall i, j :: 0 <= i < j < |s| ==> s[i] < s[j]
  }

  /** An ascending list stays ascending exactly if the number is there already or below the last one. */
  lemma {:induction false} StaysAscending(s: seq<nat>, v: nat)
    requires Ascending(s)
    ensures Ascending(WithUnique(s, v)) <==> s == [] || v in s || v < s[|s| - 1]
  {
    var i, out := FirstNotBelow(s, v), WithUnique(s, v);
    if i == |s| {
      assert s != [] ==> out[0] == v && out[|s|] == s[|s| - 1] && out[0] > out[|s|];
    } else if s[i] == v {
      assert v in s;
    } else {
      assert s[i] <= s[|s| - 1];
      assert forall j :: 0 <= j < |out| ==> out[j] == if j < i then s[j] else if j == i then v else s[j - 1];
    }
  }

  predicate NoRepeats(s: seq<nat>)
  {
    forall i, j :: 0 <= i < j < |s| ==> s[i] != s[j]
  }

  /** The number is there with no greater one before it. */
  predicate InFrontOfGreater(s: seq<nat>, v: nat)
  {
    exists j :: 0 <= j < |s| && s[j] == v && forall k :: 0 <= k < j ==> s[k] < v
  }

  /** A list without repeats gets one exactly if the number is there behind a greater one. */
  lemma {:induction false} StaysWithoutRepeats(s: seq<nat>, v: nat)
    requires NoRepeats(s)
    ensures NoRepeats(WithUnique(s, v)) <==> v !in s || InFrontOfGreater(s, v)
  {
    var i := FirstNotBelow(s, v);
    if i < |s| && s[i] == v {
      assert InFrontOfGreater(s, v);
    } else {
      assert !InFrontOfGreater(s, v);
      Spliced(s, if i == |s| then 0 else i, v);
    }
  }

  lemma {:induction false} Spliced(s: seq<nat>, i: nat, v: nat)
    requires NoRepeats(s) && i <= |s|
    ensures NoRepeats(s[..i] + [v] + s[i..]) <==> v !in s
  {
    var out := s[..i] + [v] + s[i..];
    if v in s {
      var k :| 0 <= k < |s| && s[k] == v;
      assert out[if k < i then k else k + 1] == v && out[i] == v;
    } else {
      forall j, k | 0 <= j < k < |out|
        ensures out[j] != out[k]
      {
        assert j != i ==> out[j] == s[if j < i then j else j - 1];
        assert k != i ==> out[k] == s[if k < i then k else k - 1];
      }
    }
  }

  /** The parents of a change that names the same one twice, with a greater one in between: neither
      ascending nor without repeats. */
  lemma {:induction false} NeedNotStaySorted()
    ensures WithUnique([3], 5) == [5, 3] && WithUnique([5, 3], 3) == [3, 5, 3]
  {
    assert FirstNotBelow([3], 5) == 1 by {
      assert [3][1..] == [];
    }
  }

  class Entity {
    const id: string
    var changes: seq<Stored>
    var deps: seq<seq<nat>>
    var rdeps: seq<seq<nat>>
    var applied: map<Cid, nat>
    var heads: set<Cid>
    const state: MergeMap.Map
    const maxClock: Hlc.Clock
    var vectorClock: map<string, int>

    ghost predicate Valid()
      reads this, state
    {
      state.Valid() && Shaped(View())
    }

    ghost function View(): Graph
      reads this
    {
      Graph(changes, applied, heads, SetsOf(deps), SetsOf(rdeps))
    }

    ghost function Now(): Snapshot
      reads this, state, maxClock
    {
      Snapshot(View(), vectorClock, maxClock.maxTime, state.Contents())
    }

    constructor (id: string)
      ensures Valid() && Now() == NEW && this.id == id && fresh(state) && fresh(maxClock)
    {
      this.id := id;
      changes, deps, rdeps, applied, heads := [], [], [], map[], {};
      vectorClock := map[];
      state := new MergeMap.Map();
      maxClock := new Hlc.Clock();
      new;
      assert View() == EMPTY;
      assert state.Contents() == iset{};
    }

    /** The indices of the dependencies, or nothing when one is missing. */
    method Lookup(cids: seq<Cid>) returns (found: Option<seq<nat>>)
      ensures found.Some? <==> CidSet(cids) <= applied.Keys
      ensures found.Some? ==> |found.value| == |cids| &&
                              forall i :: 0 <= i < |cids| ==> cids[i] in applied && found.value[i] == applied[cids[i]]
    {
      var out: seq<nat> := [];
      for i := 0 to |cids|
        invariant |out| == i && forall j :: 0 <= j < i ==> cids[j] in applied && out[j] == applied[cids[j]]
      {
        if cids[i] !in applied {
          assert cids[i] in CidSet(cids);
          return None;
        }
        out := out + [applied[cids[i]]];
      }
      return Some(out);
    }

    /** Records the edges of the last change in both directions. */
    method Link(indices: seq<nat>)
      requires |deps| == |rdeps| == |changes| >= 1
      requires forall i :: 0 <= i < |indices| ==> indices[i] < |changes| - 1
      requires deps[|deps| - 1] == [] && rdeps[|rdeps| - 1] == []
      modifies this`deps, this`rdeps
      ensures |deps| == |rdeps| == |changes|
      ensures deps[..|deps| - 1] == old(deps)[..|deps| - 1]
      ensures Elements(deps[|deps| - 1]) == Elements(indices)
      ensures forall j :: 0 <= j < |changes| ==> WithBack(old(rdeps)[j], rdeps[j], j in indices, |changes| - 1)
    {
      var cur := |changes| - 1;
      for i := 0 to |indices|
        invariant |deps| == |rdeps| == |changes|
        invariant deps[..cur] == old(deps)[..cur]
        invariant Elements(deps[cur]) == Elements(indices[..i])
        invariant forall j :: 0 <= j < |changes| ==> WithBack(old(rdeps)[j], rdeps[j], j in indices[..i], cur)
      {
        assert indices[..i + 1] == indices[..i] + [indices[i]];
        var more := AddUnique(deps[cur], indices[i]);
        deps := deps[cur := more];
        var back := AddUnique(rdeps[indices[i]], cur);
        rdeps := rdeps[indices[i] := back];
      }
      assert indices[..|indices|] == indices;
    }

    method ApplyChange(c: Cid, ch: Change, wall: int) returns (error: Option<Error>)
      requires Valid() && (ch.patch.Some? ==> MergeMap.NoRga(ch.patch.value))
      modifies this, state, maxClock
      ensures Valid()
      ensures error == Refusal(id, old(Now()), c, ch, wall) && Now() == After(id, old(Now()), c, ch, wall)
      ensures error == None <==> CanApply(id, old(Now()), c, ch, wall)
      ensures error == None ==> Applied(old(Now()), Now(), c, ch)
      ensures error.Some? ==>
        Blamed(error.value, id, old(Now()), c, ch, wall) && LeftAlone(old(Now()), Now(), ch, error.value)
    {
      RefusalMeans(id, Now(), c, ch, wall);
      ChangeTakesEffect(id, Now(), c, ch, wall);
      if ch.entity != id {
        return Some(OtherEntity);
      }
      if c in applied {
        return Some(AlreadyApplied);
      }
      if ch.time < TimeOf(vectorClock, ch.signer) {
        return Some(ActorOrder);
      }
      vectorClock := vectorClock[ch.signer := ch.time];
      if ch.time < maxClock.maxTime {
        return Some(OutOfOrder);
      }
      var found := Lookup(ch.deps);
      if found == None {
        return Some(MissingDep);
      }
      var ok := maxClock.Track(ch.time, wall);
      if !ok {
        return Some(AheadOfWall);
      }
      ghost var g := View();
      if ch.patch.Some? {
        var _ := state.ApplyPatch(StampOf(c, ch), ch.patch);
      }
      Append(c, ch, found.value);
      AddedKeepsShape(g, c, ch);
      return None;
    }

    /** What is depended on is no longer a head. */
    method DropHeads(cids: seq<Cid>)
      modifies this`heads
      ensures heads == old(heads) - CidSet(cids)
    {
      for i := 0 to |cids|
        invariant heads == old(heads) - CidSet(cids[..i])
      {
        assert cids[..i + 1] == cids[..i] + [cids[i]];
        heads := heads - {cids[i]};
      }
      assert cids[..|cids|] == cids;
    }

    method Append(c: Cid, ch: Change, indices: seq<nat>)
      requires Shaped(View()) && CanAdd(View(), c, ch) && |indices| == |ch.deps|
      requires forall i :: 0 <= i < |indices| ==> ch.deps[i] in applied && indices[i] == applied[ch.deps[i]]
      modifies this`changes, this`deps, this`rdeps, this`heads, this`applied
      ensures View() == Added(old(View()), c, ch)
    {
      ghost var g := View();
      forall i | 0 <= i < |indices|
        ensures indices[i] < |changes|
      {
        assert IndexWell(g, ch.deps[i]);
      }
      changes := changes + [Stored(c, ch)];
      deps := deps + [[]];
      rdeps := rdeps + [[]];
      Link(indices);
      applied := applied[c := |changes| - 1];
      heads := heads + {c};
      DropHeads(ch.deps);
      assert Elements(indices) == Indices(g.applied, ch.deps);
      LinkedSets(g, c, ch, old(deps), deps, old(rdeps), rdeps, indices);
    }

    /** The dependencies of the heads, without those that another collected one depends on directly. */
    method Deps() returns (out: seq<Cid>)
      requires Valid()
      ensures |heads| == 0 ==> out == []
      ensures forall h :: heads == {h} ==> h in applied && IndexWell(View(), h) && out == changes[applied[h]].data.deps
      ensures |heads| > 1 ==>
                CidSet(out) == CidsAt(View(), Reduced(View())) && |out| == |Reduced(View())|
    {
      if |heads| == 0 {
        return [];
      }
      if |heads| == 1 {
        var head :| head in heads;
        OneElement(heads, head);
        assert IndexWell(View(), head);
        return changes[applied[head]].data.deps;
      }
      var full := Collect();
      var reduced := Reduce(full);
      out := Names(reduced);
    }

    method Collect() returns (full: set<nat>)
      requires Valid()
      ensures full == FullDeps(View()) && forall d :: d in full ==> d < |changes|
    {
      full := {};
      var rest := heads;
      while rest != {}
        invariant rest <= heads && full == DepsOf(View(), heads - rest)
        invariant forall d :: d in full ==> d < |changes|
      {
        var head :| head in rest;
        assert IndexWell(View(), head);
        assert View().deps[applied[head]] == Elements(deps[applied[head]]);
        assert heads - (rest - {head}) == heads - rest + {head};
        full := full + Elements(deps[applied[head]]);
        rest := rest - {head};
      }
      assert heads - rest == heads;
    }

    /** Walks from the collected dependencies towards the heads, dropping those with a collected successor. */
    method Reduce(full: set<nat>) returns (reduced: set<nat>)
      requires Valid() && forall d :: d in full ==> d < |changes|
      ensures reduced == Uncovered(View(), full)
    {
      var stack := Listed(full);
      var visited: set<nat> := {};
      ghost var all := Below(|changes|);
      reduced := full;
      while stack != []
        invariant visited <= all && Elements(stack) <= all && full <= visited + Elements(stack)
        invariant reduced == full - Covered(View(), full, visited)
        decreases all - visited, |stack|
      {
        var node := stack[|stack| - 1];
        LastApart(stack);
        stack := stack[..|stack| - 1];
        if node !in visited {
          visited := visited + {node};
          var more, keep := Visit(node, visited, full);
          assert Elements(stack + more) == Elements(stack) + Elements(more);
          stack := stack + more;
          if !keep {
            reduced := reduced - {node};
          }
        }
      }
    }

    /** The successors to visit, up to the first collected one. */
    method Visit(node: nat, visited: set<nat>, full: set<nat>) returns (more: seq<nat>, keep: bool)
      requires Valid() && node < |changes|
      ensures keep <==> View().rdeps[node] !! full
      ensures Elements(more) <= View().rdeps[node] && forall d :: d in Elements(more) ==> d < |changes|
    {
      assert View().rdeps[node] == Elements(rdeps[node]);
      more, keep := [], true;
      for i := 0 to |rdeps[node]|
        invariant Elements(more) <= Elements(rdeps[node])
        invariant keep && forall j :: 0 <= j < i ==> rdeps[node][j] !in full
      {
        var rdep := rdeps[node][i];
        assert rdep in Elements(rdeps[node]);
        if rdep !in visited {
          assert Elements(more + [rdep]) == Elements(more) + {rdep};
          more := more + [rdep];
        }
        if rdep in full {
          keep := false;
          break;
        }
      }
    }

    method Names(indices: set<nat>) returns (out: seq<Cid>)
      requires Valid() && forall d :: d in indices ==> d < |changes|
      ensures CidSet(out) == CidsAt(View(), indices) && |out| == |indices|
    {
      out := [];
      var rest := indices;
      while rest != {}
        invariant rest <= indices && CidSet(out) == CidsAt(View(), indices - rest) && |out| + |rest| == |indices|
      {
        var d :| d in rest;
        ghost var done := indices - rest;
        assert CidsAt(View(), done + {d}) == CidsAt(View(), done) + {changes[d].cid};
        assert indices - (rest - {d}) == done + {d};
        assert CidSet(out + [changes[d].cid]) == CidSet(out) + {changes[d].cid};
        out := out + [changes[d].cid];
        rest := rest - {d};
      }
      assert indices - rest == indices;
    }

    /** A change on top of all heads. Whether it can be signed and encoded is up to the caller. */
    method CreateChange(c: Cid, signer: string, time: int, patch: Option<MergeMap.Fields>, signs: bool, wall: int)
      returns (made: Option<Change>, error: Option<Error>)
      requires Valid() && (patch.Some? ==> MergeMap.NoRga(patch.value))
      modifies this, state, maxClock
      ensures Valid()
      ensures made == None ==> error == Some(NotMade) && Now() == old(Now())
      ensures made.Some? ==>
                && made.value == Change(id, signer, time, made.value.deps, patch)
                && CidSet(made.value.deps) == old(heads) && InAscendingOrder(made.value.deps)
                && error == Refusal(id, old(Now()), c, made.value, wall)
                && Now() == After(id, old(Now()), c, made.value, wall)
      ensures made.Some? <==> signs && !((patch == None || patch.value == map[]) && |old(heads)| == 1)
      ensures made.Some? ==> (error == None <==> CanApply(id, old(Now()), c, made.value, wall))
    {
      var order := MergeMap.SortedStrings(heads);
      SortedSize(order, heads);
      made := NewChange(id, order, signer, time, patch, signs);
      if made == None {
        return None, Some(NotMade);
      }
      error := ApplyChange(c, made.value, wall);
    }

    /** Puts a new change in place of the only head. Once the old change is forgotten a failure does
        not bring it back. */
    method ReplaceChange(prev: Cid, c: Cid, signer: string, time: int, patch: Option<MergeMap.Fields>, signs: bool,
                         wall: int)
      returns (made: Option<Change>, error: Option<Error>)
      requires Valid() && (patch.Some? ==> MergeMap.NoRga(patch.value))
      modifies this, state, maxClock
      ensures Valid()
      ensures |old(heads)| != 1 ==> made == None && error == Some(ManyHeads) && Now() == old(Now())
      ensures |old(heads)| == 1 && prev !in old(heads) ==> made == None && error == Some(NotTheHead) && Now() == old(Now())
      ensures old(heads) == {prev} ==>
                var s := Forgotten(old(Now()), prev);
                prev in old(applied) && IndexWell(old(View()), prev) &&
                var was := old(changes)[old(applied)[prev]].data.deps;
                && (made.Some? <==> signs && !((patch == None || patch.value == map[]) && |was| == 1))
                && (made == None ==> error == Some(NotMade) && Now() == s)
                && (made.Some? ==>
                     && made.value == Change(id, signer, time, made.value.deps, patch)
                     && multiset(made.value.deps) == multiset(was) && InAscendingOrder(made.value.deps)
                     && (error == None <==> CanApply(id, s, c, made.value, wall))
                     && error == Refusal(id, s, c, made.value, wall)
                     && Now() == After(id, s, c, made.value, wall))
      ensures Now() == AfterReplace(id, old(Now()), Replacement(prev, c, signer, time, patch, signs, wall))
    {
      if |heads| != 1 {
        return None, Some(ManyHeads);
      }
      if prev !in heads {
        return None, Some(NotTheHead);
      }
      OneElement(heads, prev);
      assert IndexWell(View(), prev);
      var was := changes[applied[prev]].data;
      state.ForgetState(StampOf(prev, was));
      applied := applied - {prev};
      heads := heads - {prev};
      assert Now() == Forgotten(old(Now()), prev);
      made := NewChange(id, was.deps, signer, time, patch, signs);
      if made == None {
        return None, Some(NotMade);
      }
      error := ApplyChange(c, made.value, wall);
    }
  }

  // ---- Making changes ----

  function InsertCid(sorted: seq<Cid>, c: Cid): seq<Cid>
  {
    if sorted == [] || Lex.Less(c, sorted[0]) then [c] + sorted else [sorted[0]] + InsertCid(sorted[1..], c)
  }

  function SortCids(cids: seq<Cid>): (sorted: seq<Cid>)
    ensures |sorted| == |cids|
  {
    if cids == [] then [] else
      var rest := SortCids(cids[1..]);
      InsertedLength(rest, cids[0]);
      InsertCid(rest, cids[0])
  }

  lemma {:induction false} InsertedLength(sorted: seq<Cid>, c: Cid)
    ensures |InsertCid(sorted, c)| == |sorted| + 1
  {
    if sorted != [] {
      InsertedLength(sorted[1..], c);
    }
  }

  lemma {:induction false} InsertedSet(sorted: seq<Cid>, c: Cid)
    ensures CidSet(InsertCid(sorted, c)) == CidSet(sorted) + {c}
  {
    if sorted != [] && !Lex.Less(c, sorted[0]) {
      InsertedSet(sorted[1..], c);
      var rest := InsertCid(sorted[1..], c);
      assert forall x :: x in [sorted[0]] + rest <==> x == sorted[0] || x in CidSet(rest);
      assert sorted == [sorted[0]] + sorted[1..];
      assert forall x :: x in sorted <==> x == sorted[0] || x in CidSet(sorted[1..]);
    }
  }

  /** Sorting keeps the dependencies as a set. */
  lemma {:induction false} SortedSet(cids: seq<Cid>)
    ensures CidSet(SortCids(cids)) == CidSet(cids)
  {
    if cids != [] {
      SortedSet(cids[1..]);
      InsertedSet(SortCids(cids[1..]), cids[0]);
      assert cids == [cids[0]] + cids[1..];
      assert forall x :: x in cids <==> x == cids[0] || x in CidSet(cids[1..]);
    }
  }

  /** No CID comes behind a greater one. */
  predicate InAscendingOrder(cids: seq<Cid>)
  {
    forall i, j :: 0 <= i < j < |cids| ==> !Lex.Less(cids[j], cids[i])
  }

  lemma {:induction false} InsertedOnce(sorted: seq<Cid>, c: Cid)
    ensures multiset(InsertCid(sorted, c)) == multiset(sorted) + multiset{c}
  {
    if sorted != [] && !Lex.Less(c, sorted[0]) {
      InsertedOnce(sorted[1..], c);
      assert sorted == [sorted[0]] + sorted[1..];
    }
  }

  lemma {:induction false} FirstIsSmallest(first: Cid, rest: seq<Cid>)
    requires InAscendingOrder(rest) && forall j :: 0 <= j < |rest| ==> !Lex.Less(rest[j], first)
    ensures InAscendingOrder([first] + rest)
  {
    var cids := [first] + rest;
    forall i, j | 0 <= i < j < |cids|
      ensures !Lex.Less(cids[j], cids[i])
    {
      assert cids[j] == rest[j - 1];
    }
  }

  lemma {:induction false} InsertedInOrder(sorted: seq<Cid>, c: Cid)
    requires InAscendingOrder(sorted)
    ensures InAscendingOrder(InsertCid(sorted, c))
  {
    if sorted == [] {
    } else if Lex.Less(c, sorted[0]) {
      forall j | 0 <= j < |sorted|
        ensures !Lex.Less(sorted[j], c)
      {
        NothingSmaller(sorted, c, j);
      }
      FirstIsSmallest(c, sorted);
    } else {
      var tail := sorted[1..];
      var rest := InsertCid(tail, c);
      InsertedInOrder(tail, c);
      InsertedSet(tail, c);
      forall j | 0 <= j < |rest|
        ensures !Lex.Less(rest[j], sorted[0])
      {
        assert rest[j] in CidSet(rest);
        if rest[j] != c {
          var k :| 0 <= k < |tail| && tail[k] == rest[j];
          assert tail[k] == sorted[k + 1];
        }
      }
      FirstIsSmallest(sorted[0], rest);
    }
  }

  lemma {:induction false} NothingSmaller(sorted: seq<Cid>, c: Cid, j: nat)
    requires InAscendingOrder(sorted) && j < |sorted| && Lex.Less(c, sorted[0])
    ensures !Lex.Less(sorted[j], c)
  {
    Lex.Trichotomy(c, sorted[0]);
    if j > 0 && Lex.Less(sorted[j], c) {
      Lex.Transitive(sorted[j], c, sorted[0]);
    }
  }

  /** Sorting puts the same CIDs, as often as they are there, in ascending order. */
  lemma {:induction false} SortsCids(cids: seq<Cid>)
    ensures InAscendingOrder(SortCids(cids)) && multiset(SortCids(cids)) == multiset(cids)
  {
    if cids != [] {
      SortsCids(cids[1..]);
      InsertedInOrder(SortCids(cids[1..]), cids[0]);
      InsertedOnce(SortCids(cids[1..]), cids[0]);
      assert cids == [cids[0]] + cids[1..];
    }
  }

  predicate EmptyPatch(patch: Option<MergeMap.Fields>)
  {
    patch == None || patch.value == map[]
  }

  method NewChange(id: string, deps: seq<Cid>, signer: string, time: int, patch: Option<MergeMap.Fields>, signs: bool)
    returns (made: Option<Change>)
    ensures made == if signs && !(EmptyPatch(patch) && |deps| == 1)
                    then Some(Change(id, signer, time, SortCids(deps), patch)) else None
    ensures CidSet(SortCids(deps)) == CidSet(deps)
    ensures made.Some? ==> InAscendingOrder(made.value.deps) && multiset(made.value.deps) == multiset(deps)
  {
    SortedSet(deps);
    SortsCids(deps);
    if EmptyPatch(patch) && |deps| == 1 {
      return None;
    }
    return if signs then Some(Change(id, signer, time, SortCids(deps), patch)) else None;
  }

  lemma {:induction false} OneElement(s: set<Cid>, x: Cid)
    requires |s| == 1 && x in s
    ensures s == {x}
  {
    assert |s - {x}| == 0;
  }

  /** Strictly ascending strings are as many as the set of them. */
  lemma {:induction false} SortedSize(list: seq<Cid>, s: set<Cid>)
    requires MergeMap.Ascending(list) && forall x :: x in list <==> x in s
    ensures |list| == |s| && CidSet(list) == s
  {
    if list != [] {
      var last := list[|list| - 1];
      assert list == list[..|list| - 1] + [last];
      if last in list[..|list| - 1] {
        Lex.Irreflexive(last);
      }
      SortedSize(list[..|list| - 1], s - {last});
    }
  }

  /** The entity once the state of its head is forgotten: the change itself stays in the list. */
  ghost function Forgotten(s: Snapshot, prev: Cid): Snapshot
    requires prev in s.graph.applied && IndexWell(s.graph, prev)
  {
    var g := s.graph;
    s.(graph := g.(applied := g.applied - {prev}, heads := g.heads - {prev}),
       nodes := MergeMap.Without(s.nodes, StampOf(prev, g.changes[g.applied[prev]].data)))
  }

  /** What `ReplaceChange` is asked to do. */
  datatype Replacement = Replacement(prev: Cid, cid: Cid, signer: string, time: int, patch: Option<MergeMap.Fields>,
                                     signs: bool, wall: int)

  ghost predicate CanReplace(s: Snapshot, prev: Cid)
  {
    s.graph.heads == {prev} && prev in s.graph.applied && IndexWell(s.graph, prev)
  }

  /** The change made in place of the other, on the same dependencies. */
  function InPlaceOf(id: string, was: Change, r: Replacement): Option<Change>
  {
    if r.signs && !(EmptyPatch(r.patch) && |was.deps| == 1)
    then Some(Change(id, r.signer, r.time, SortCids(was.deps), r.patch)) else None
  }

  ghost function AfterReplace(id: string, s: Snapshot, r: Replacement): (s': Snapshot)
    requires |s.graph.rdeps| == |s.graph.changes|
    ensures |s'.graph.rdeps| == |s'.graph.changes|
  {
    if !CanReplace(s, r.prev) then s
    else
      match InPlaceOf(id, s.graph.changes[s.graph.applied[r.prev]].data, r)
      case None => Forgotten(s, r.prev)
      case Some(ch) => After(id, Forgotten(s, r.prev), r.cid, ch, r.wall)
  }

  // ---- Collected dependencies ----

  ghost function DepsOf(g: Graph, hs: set<Cid>): set<nat>
  {
    set h, d | h in hs && h in g.applied && g.applied[h] < |g.deps| && d in g.deps[g.applied[h]] :: d
  }

  ghost function FullDeps(g: Graph): set<nat>
  {
    DepsOf(g, g.heads)
  }

  /** Those that no collected one depends on directly. */
  ghost function Uncovered(g: Graph, full: set<nat>): set<nat>
  {
    set d | d in full && (d < |g.rdeps| ==> g.rdeps[d] !! full)
  }

  ghost function Reduced(g: Graph): set<nat>
  {
    Uncovered(g, FullDeps(g))
  }

  ghost function Covered(g: Graph, full: set<nat>, visited: set<nat>): set<nat>
  {
    set d | d in visited && d < |g.rdeps| && !(g.rdeps[d] !! full)
  }

  ghost function CidsAt(g: Graph, indices: set<nat>): set<Cid>
  {
    set d | d in indices && d < |g.changes| :: g.changes[d].cid
  }

  lemma {:induction false} LastApart(s: seq<nat>)
    requires s != []
    ensures Elements(s) == Elements(s[..|s| - 1]) + {s[|s| - 1]}
  {
    assert s == s[..|s| - 1] + [s[|s| - 1]];
  }

  method Listed(s: set<nat>) returns (out: seq<nat>)
    ensures Elements(out) == s
  {
    out := [];
    var rest := s;
    while rest != {}
      invariant rest <= s && Elements(out) == s - rest
    {
      var x :| x in rest;
      assert Elements(out + [x]) == Elements(out) + {x};
      out := out + [x];
      rest := rest - {x};
    }
  }

  lemma {:induction false} LinkedSets(g: Graph, c: Cid, ch: Change, deps: seq<seq<nat>>, deps': seq<seq<nat>>,
                                      rdeps: seq<seq<nat>>, rdeps': seq<seq<nat>>, indices: seq<nat>)
    requires |g.changes| == |deps| == |rdeps| && |deps'| == |rdeps'| == |deps| + 1
    requires g.deps == SetsOf(deps) && g.rdeps == SetsOf(rdeps)
    requires deps'[..|deps|] == deps && Elements(deps'[|deps|]) == Elements(indices) == Indices(g.applied, ch.deps)
    requires forall j :: 0 <= j <= |deps| ==> WithBack((rdeps + [[]])[j], rdeps'[j], j in indices, |deps|)
    ensures SetsOf(deps') == Added(g, c, ch).deps && SetsOf(rdeps') == Added(g, c, ch).rdeps
  {
    var g' := Added(g, c, ch);
    forall j | 0 <= j <= |deps|
      ensures SetsOf(deps')[j] == g'.deps[j] && SetsOf(rdeps')[j] == g'.rdeps[j]
    {
      assert WithBack((rdeps + [[]])[j], rdeps'[j], j in indices, |deps|);
      assert j < |deps| ==> deps'[j] == deps'[..|deps|][j];
      assert j in indices <==> j in Elements(indices);
    }
  }
}

/** Loading an entity at the version that some heads stand for (backend/hyper/entity.go, with the
    queries it uses in backend/hyper/hypersql/queries.gen.go). */
module LoadVersion {
  import opened Options
  import opened EntityGraph
  import opened Entities
  import opened EntityRuns
  import EntityReplicas
  import Hlc
  import MergeMap

  /** All changes stored, of whatever entity. */
  type Store = map<Cid, Change>

  ghost predicate NoRgas(store: Store)
  {
    forall c :: c in store && store[c].patch.Some? ==> MergeMap.NoRga(store[c].patch.value)
  }

  /** From each change to one of its dependencies. */
  ghost predicate Leads(store: Store, path: seq<Cid>)
  {
    path != [] && forall i :: 0 <= i < |path| - 1 ==> path[i] in store && path[i + 1] in store[path[i]].deps
  }

  /** The change is the other one or an ancestor of it. */
  ghost predicate Under(store: Store, c: Cid, h: Cid)
  {
    exists path :: Leads(store, path) && path[0] == h && path[|path| - 1] == c
  }

  ghost predicate UnderSome(store: Store, c: Cid, heads: set<Cid>)
  {
    exists h :: h in heads && Under(store, c, h)
  }

  lemma {:induction false} UnderItself(store: Store, c: Cid)
    ensures Under(store, c, c)
  {
    assert Leads(store, [c]) && [c][0] == c && [c][|[c]| - 1] == c;
  }

  lemma {:induction false} UnderOn(store: Store, d: Cid, c: Cid, h: Cid)
    requires Under(store, c, h) && c in store && d in store[c].deps
    ensures Under(store, d, h)
  {
    var path :| Leads(store, path) && path[0] == h && path[|path| - 1] == c;
    var more := path + [d];
    assert Leads(store, more) && more[0] == h && more[|more| - 1] == d;
  }

  /** Every dependency of the change, if it is stored, is in the set. */
  ghost predicate HasDeps(store: Store, s: set<Cid>, c: Cid)
  {
    c in store ==> forall d :: d in store[c].deps ==> d in s
  }

  /** With each change that is not pending the set has its dependencies. */
  ghost predicate Closed(store: Store, s: set<Cid>, pending: set<Cid>)
  {
    forall c :: c in s && c !in pending ==> HasDeps(store, s, c)
  }

  /** A closed set holds all that is under its elements. */
  lemma {:induction false} ClosedHoldsPath(store: Store, s: set<Cid>, path: seq<Cid>)
    requires Leads(store, path) && path[0] in s
    requires Closed(store, s, {})
    ensures path[|path| - 1] in s
    decreases |path|
  {
    if |path| > 1 {
      assert HasDeps(store, s, path[0]);
      ClosedHoldsPath(store, s, path[1..]);
    }
  }

  // ---- The queries ----

  /** All that can be found: the heads, and whatever a stored change depends on. */
  function Named(store: Store, heads: set<Cid>): set<Cid>
  {
    heads + set c, d | c in store.Keys && d in CidSet(store[c].deps) :: d
  }

  ghost predicate Found(store: Store, s: set<Cid>, heads: set<Cid>)
  {
    forall c :: c in s ==> UnderSome(store, c, heads)
  }

  ghost predicate Resolving(store: Store, heads: set<Cid>, s: set<Cid>, todo: set<Cid>)
  {
    todo <= s <= Named(store, heads) && Found(store, s, heads) && Closed(store, s, todo)
  }

  function DepsOf(store: Store, c: Cid): set<Cid>
  {
    if c in store then CidSet(store[c].deps) else {}
  }

  /** One row of the query: the parents of a change found, if it is stored. */
  method Expand(store: Store, ghost heads: set<Cid>, s: set<Cid>, todo: set<Cid>)
    returns (s': set<Cid>, todo': set<Cid>)
    requires todo != {} && Resolving(store, heads, s, todo)
    ensures s <= s' && Resolving(store, heads, s', todo')
    ensures Named(store, heads) - s' < Named(store, heads) - s || (s' == s && |todo'| < |todo|)
  {
    var c :| c in todo;
    var parents := DepsOf(store, c) - s;
    ParentsAreFound(store, heads, s, todo, c);
    Shrinks(Named(store, heads), s, parents);
    s', todo' := s + parents, todo - {c} + parents;
    assert parents == {} ==> todo' == todo - {c};
  }

  /** The recursive query: the heads, and the parents of all that is found. */
  method ResolveHeads(store: Store, heads: set<Cid>) returns (changeset: set<Cid>)
    ensures forall c :: c in changeset <==> UnderSome(store, c, heads)
  {
    changeset := heads;
    var todo := heads;
    HeadsAreFound(store, heads);
    while todo != {}
      invariant heads <= changeset && Resolving(store, heads, changeset, todo)
      decreases Named(store, heads) - changeset, |todo|
    {
      changeset, todo := Expand(store, heads, changeset, todo);
    }
    ResolvedIsAll(store, heads, changeset);
  }

  lemma {:induction false} Shrinks(all: set<Cid>, before: set<Cid>, more: set<Cid>)
    requires more <= all && more !! before
    ensures if more == {} then before + more == before else all - (before + more) < all - before
  {
    if more != {} {
      var d :| d in more;
      assert d in all - before && d !in all - (before + more);
    }
  }

  lemma {:induction false} HeadsAreFound(store: Store, heads: set<Cid>)
    ensures Found(store, heads, heads) && Closed(store, heads, heads)
  {
    forall h | h in heads
      ensures UnderSome(store, h, heads)
    {
      UnderItself(store, h);
    }
  }

  lemma {:induction false} ParentsAreFound(store: Store, heads: set<Cid>, s: set<Cid>, todo: set<Cid>, c: Cid)
    requires c in todo && Resolving(store, heads, s, todo)
    ensures
      var parents := DepsOf(store, c) - s;
      Resolving(store, heads, s + parents, todo - {c} + parents)
  {
    var parents := DepsOf(store, c) - s;
    forall d | d in parents
      ensures UnderSome(store, d, heads) && d in Named(store, heads)
    {
      assert UnderSome(store, c, heads);
      var h :| h in heads && Under(store, c, h);
      UnderOn(store, d, c, h);
    }
    forall b | b in s + parents && b !in todo - {c} + parents
      ensures HasDeps(store, s + parents, b)
    {
      if b != c {
        assert b in s && b !in todo && HasDeps(store, s, b);
      } else {
        assert c in store ==> forall d :: d in store[c].deps ==> d in CidSet(store[c].deps);
      }
    }
  }

  lemma {:induction false} ResolvedIsAll(store: Store, heads: set<Cid>, s: set<Cid>)
    requires heads <= s && Closed(store, s, {})
    ensures forall c :: UnderSome(store, c, heads) ==> c in s
  {
    forall c | UnderSome(store, c, heads)
      ensures c in s
    {
      var h :| h in heads && Under(store, c, h);
      var path :| Leads(store, path) && path[0] == h && path[|path| - 1] == c;
      ClosedHoldsPath(store, s, path);
    }
  }

  /** The changes to load: of this entity, stored, and among the heads and their ancestors. */
  ghost predicate Needed(store: Store, id: string, heads: set<Cid>, c: Cid)
  {
    c in store && store[c].entity == id && UnderSome(store, c, heads)
  }

  function OwnOf(store: Store, id: string, s: set<Cid>): set<Cid>
  {
    set c | c in s && c in store && store[c].entity == id
  }

  /** Each change of the set once, none before an older one. Which of two of the same time comes
      first is up to the database. */
  ghost predicate InTimeOrder(store: Store, s: set<Cid>, list: seq<Cid>)
  {
    && s <= store.Keys && CidSet(list) == s
    && (forall i, j :: 0 <= i < j < |list| ==> list[i] != list[j])
    && (forall i, j :: 0 <= i < j < |list| ==> Older(store, list[i], list[j]))
  }

  predicate Older(store: Store, c: Cid, d: Cid)
  {
    c in store && d in store && store[c].time <= store[d].time
  }

  lemma {:induction false} OldestExists(store: Store, s: set<Cid>) returns (c: Cid)
    requires s != {} && s <= store.Keys
    ensures c in s && forall d :: d in s ==> Older(store, c, d)
  {
    c :| c in s;
    if s != {c} {
      assert s - {c} == {} ==> s == {c};
      var first := c;
      var e := OldestExists(store, s - {c});
      if store[e].time < store[c].time {
        c := e;
      }
      forall d | d in s
        ensures Older(store, c, d)
      {
        assert d != first ==> Older(store, e, d);
      }
    }
  }

  method ListByTime(store: Store, id: string, changeset: set<Cid>) returns (list: seq<Cid>)
    ensures InTimeOrder(store, OwnOf(store, id, changeset), list)
  {
    var s := OwnOf(store, id, changeset);
    list := [];
    var rest := s;
    while rest != {}
      invariant rest <= s && InTimeOrder(store, s - rest, list)
      invariant forall c, d :: c in list && d in rest ==> Older(store, c, d)
    {
      ghost var oldest := OldestExists(store, rest);
      var c :| c in rest && forall d :: d in rest ==> Older(store, c, d);
      assert c !in CidSet(list);
      assert CidSet(list + [c]) == CidSet(list) + {c};
      assert s - (rest - {c}) == s - rest + {c};
      list := list + [c];
      rest := rest - {c};
    }
    assert s - rest == s;
  }

  /** The changes to load, each once and none before an older one. */
  ghost predicate IsListed(store: Store, id: string, heads: set<Cid>, list: seq<Cid>)
  {
    InTimeOrder(store, CidSet(list), list) && forall c :: c in CidSet(list) <==> Needed(store, id, heads, c)
  }

  // ---- Applying them ----

  type Walls = Cid -> int

  function CallsOf(store: Store, list: seq<Cid>, walls: Walls): seq<Call>
    requires CidSet(list) <= store.Keys
  {
    seq(|list|, i requires 0 <= i < |list| =>
      assert list[i] in CidSet(list);
      Call(list[i], store[list[i]], walls(list[i])))
  }

  /** Not from before 1970, and not ahead of the wall. */
  predicate Acceptable(store: Store, walls: Walls, c: Cid)
  {
    c in store && 0 <= store[c].time && Hlc.ValidateSkew(store[c].time, walls(c)).Some?
  }

  function StoredAt(store: Store, list: seq<Cid>, i: nat): Change
    requires CidSet(list) <= store.Keys && i < |list|
  {
    assert list[i] in CidSet(list);
    store[list[i]]
  }

  /** Acceptable, with all its dependencies before it in the list. */
  ghost predicate AcceptableAt(store: Store, walls: Walls, list: seq<Cid>, n: nat)
    requires CidSet(list) <= store.Keys && n < |list|
  {
    Acceptable(store, walls, list[n]) && CidSet(StoredAt(store, list, n).deps) <= CidSet(list[..n])
  }

  /** What an entity holds after the first changes of the list. */
  ghost predicate LoadedUpTo(store: Store, list: seq<Cid>, n: nat, s: Snapshot)
    requires CidSet(list) <= store.Keys && n <= |list|
  {
    && s.graph.applied.Keys == CidSet(list[..n])
    && (forall signer :: signer in s.times ==> s.times[signer] <= s.maxTime)
    && s.maxTime == if n == 0 then 0 else StoredAt(store, list, n - 1).time
  }

  /** The next change is accepted unless it is from before 1970 or ahead of the wall, or lacks a dependency. */
  lemma {:induction false} NextIsAccepted(store: Store, id: string, list: seq<Cid>, walls: Walls, n: nat, now: Snapshot)
    requires InTimeOrder(store, CidSet(list), list) && n < |list| && StoredAt(store, list, n).entity == id
    requires LoadedUpTo(store, list, n, now) && 0 <= now.maxTime
    ensures Accepts(id, now, Call(list[n], StoredAt(store, list, n), walls(list[n]))) <==>
            AcceptableAt(store, walls, list, n)
  {
    assert list[n] in CidSet(list) && list[n] !in list[..n];
    assert n > 0 ==> Older(store, list[n - 1], list[n]);
  }

  lemma {:induction false} LoadsNext(store: Store, id: string, list: seq<Cid>, walls: Walls, n: nat, now: Snapshot)
    requires CidSet(list) <= store.Keys && n < |list| && LoadedUpTo(store, list, n, now)
    requires |now.graph.rdeps| == |now.graph.changes|
    requires Accepts(id, now, Call(list[n], StoredAt(store, list, n), walls(list[n])))
    ensures LoadedUpTo(store, list, n + 1, Step(id, now, Call(list[n], StoredAt(store, list, n), walls(list[n]))))
  {
    assert list[..n + 1] == list[..n] + [list[n]];
    assert CidSet(list[..n + 1]) == CidSet(list[..n]) + {list[n]};
  }

  lemma {:induction false} NextCall(store: Store, id: string, list: seq<Cid>, walls: Walls, i: nat)
    requires CidSet(list) <= store.Keys && i < |list|
    ensures
      var calls := CallsOf(store, list, walls);
      RunOf(id, calls[..i + 1]) == Step(id, RunOf(id, calls[..i]), Call(list[i], StoredAt(store, list, i), walls(list[i])))
  {
    var calls := CallsOf(store, list, walls);
    assert calls[..i + 1][..i] == calls[..i];
  }

  /** The first changes of the list were acceptable, and have been applied. */
  ghost predicate Applied(store: Store, id: string, list: seq<Cid>, walls: Walls, i: nat, now: Snapshot)
    requires CidSet(list) <= store.Keys && i <= |list|
  {
    && now == RunOf(id, CallsOf(store, list, walls)[..i]) && LoadedUpTo(store, list, i, now) && 0 <= now.maxTime
    && forall j :: 0 <= j < i ==> AcceptableAt(store, walls, list, j)
  }

  lemma {:induction false} NextStep(store: Store, id: string, list: seq<Cid>, walls: Walls, i: nat, now: Snapshot)
    requires InTimeOrder(store, CidSet(list), list) && i < |list| && StoredAt(store, list, i).entity == id
    requires Applied(store, id, list, walls, i, now) && |now.graph.rdeps| == |now.graph.changes|
    ensures
      var refusal := Refusal(id, now, list[i], StoredAt(store, list, i), walls(list[i]));
      && (refusal == None <==> AcceptableAt(store, walls, list, i))
      && (refusal == None ==>
            Applied(store, id, list, walls, i + 1, After(id, now, list[i], StoredAt(store, list, i), walls(list[i]))))
  {
    NextIsAccepted(store, id, list, walls, i, now);
    NextCall(store, id, list, walls, i);
    if AcceptableAt(store, walls, list, i) {
      LoadsNext(store, id, list, walls, i, now);
    }
  }

  /** Nothing was refused. */
  ghost predicate AllAcceptable(store: Store, walls: Walls, list: seq<Cid>)
    requires CidSet(list) <= store.Keys
  {
    forall i :: 0 <= i < |list| ==> AcceptableAt(store, walls, list, i)
  }

  /** The entity holds the changes listed, and is at those that no other one depends on. */
  ghost predicate IsLoaded(store: Store, list: seq<Cid>, s: Snapshot)
  {
    && s.graph.applied.Keys == CidSet(list)
    && forall c :: c in s.graph.heads <==> c in CidSet(list) && NoneNeeds(store, CidSet(list), c)
  }

  ghost predicate NoneNeeds(store: Store, s: set<Cid>, c: Cid)
  {
    forall d :: d in s && d in store ==> c !in store[d].deps
  }

  /** Every change applied is as it was given. */
  ghost predicate FromStore(store: Store, g: Graph)
  {
    forall i :: 0 <= i < |g.changes| ==> g.changes[i].cid in store && g.changes[i].data == store[g.changes[i].cid]
  }

  lemma {:induction false} LoadedFromStore(store: Store, id: string, list: seq<Cid>, walls: Walls, n: nat)
    requires CidSet(list) <= store.Keys && n <= |list|
    ensures FromStore(store, RunOf(id, CallsOf(store, list, walls)[..n]).graph)
  {
    var calls := CallsOf(store, list, walls);
    if n > 0 {
      LoadedFromStore(store, id, list, walls, n - 1);
      assert calls[..n][..n - 1] == calls[..n - 1];
      assert list[n - 1] in CidSet(list);
    }
  }

  /** A change applied is a head unless another one applied depends on it. */
  lemma {:induction false} HeadUnlessNeeded(store: Store, g: Graph, c: Cid)
    requires Sound(g) && FromStore(store, g) && c in g.applied
    ensures c in g.heads <==> forall d :: d in g.applied && d in store ==> c !in store[d].deps
  {
    EntityReplicas.HeadUnlessDependedOn(g, c);
    forall d | d in g.applied && d in store
      ensures Stored(d, store[d]) in g.changes
    {
      assert IndexWell(g, d) && g.changes[g.applied[d]] in g.changes;
    }
    forall st | st in g.changes
      ensures st.cid in g.applied && st.cid in store && st.data == store[st.cid]
    {
      var i :| 0 <= i < |g.changes| && g.changes[i] == st;
      assert Placed(g, i);
    }
  }

  lemma {:induction false} AppliedIsLoaded(store: Store, id: string, list: seq<Cid>, walls: Walls, now: Snapshot)
    requires CidSet(list) <= store.Keys && Applied(store, id, list, walls, |list|, now)
    ensures now == RunOf(id, CallsOf(store, list, walls)) && AllAcceptable(store, walls, list)
    ensures Sound(now.graph) && FromStore(store, now.graph) && IsLoaded(store, list, now)
  {
    var calls, g := CallsOf(store, list, walls), now.graph;
    assert calls[..|list|] == calls && list[..|list|] == list;
    LoadedFromStore(store, id, list, walls, |list|);
    RunIsSound(id, calls);
    forall c
      ensures c in g.heads <==> c in CidSet(list) && NoneNeeds(store, CidSet(list), c)
    {
      if c in g.applied {
        HeadUnlessNeeded(store, g, c);
      }
    }
  }

  /** Loads the changes among the heads and their ancestors, in the order in which the database lists them.
      It succeeds exactly when each is from 1970 on, not ahead of the wall, and behind all its dependencies. */
  method LoadFromHeads(store: Store, id: string, heads: set<Cid>, walls: Walls)
    returns (entity: Entity?, error: Option<Error>, ghost list: seq<Cid>)
    requires NoRgas(store)
    ensures IsListed(store, id, heads, list)
    ensures error == None <==> AllAcceptable(store, walls, list)
    ensures entity != null <==> error == None && list != []
    ensures entity != null ==> fresh(entity) && entity.Valid() && Sound(entity.View())
    ensures entity != null ==> IsLoaded(store, list, entity.Now()) && entity.Now() == RunOf(id, CallsOf(store, list, walls))
  {
    var changeset := ResolveHeads(store, heads);
    var changes := ListByTime(store, id, changeset);
    list := changes;
    if |changes| == 0 {
      return null, None, changes;
    }
    var e := new Entity(id);
    error := ApplyList(e, store, changes, walls);
    if error.Some? {
      return null, error, changes;
    }
    return e, None, changes;
  }

  /** Applies the changes listed to a new entity, up to the first one that is refused. */
  method ApplyList(e: Entity, store: Store, list: seq<Cid>, walls: Walls) returns (error: Option<Error>)
    requires NoRgas(store) && InTimeOrder(store, CidSet(list), list) && e.Valid() && e.Now() == NEW
    requires forall c :: c in CidSet(list) ==> store[c].entity == e.id
    modifies e, e.state, e.maxClock
    ensures e.Valid() && (error == None <==> AllAcceptable(store, walls, list))
    ensures error == None ==> e.Now() == RunOf(e.id, CallsOf(store, list, walls))
    ensures error == None ==> Sound(e.View()) && IsLoaded(store, list, e.Now())
  {
    for i := 0 to |list|
      invariant e.Valid() && Applied(store, e.id, list, walls, i, e.Now())
    {
      assert list[i] in CidSet(list);
      NextStep(store, e.id, list, walls, i, e.Now());
      error := e.ApplyChange(list[i], store[list[i]], walls(list[i]));
      if error.Some? {
        return;
      }
    }
    AppliedIsLoaded(store, e.id, list, walls, e.Now());
    return None;
  }

  // ---- Changes that are younger than their dependencies ----

  /** The dependencies of the entity's changes are stored changes of the entity, and strictly older. */
  ghost predicate WellStored(store: Store, id: string)
  {
    forall c :: c in store && store[c].entity == id ==> DepsOlder(store, id, c)
  }

  ghost predicate DepsOlder(store: Store, id: string, c: Cid)
    requires c in store
  {
    forall d :: d in store[c].deps ==> d in store && store[d].entity == id && store[d].time < store[c].time
  }

  ghost predicate AllOf(store: Store, id: string, heads: set<Cid>)
  {
    forall h :: h in heads ==> h in store && store[h].entity == id
  }

  /** A change under another one of the entity is of the entity too, and older or the same. */
  lemma {:induction false} UnderIsOlder(store: Store, id: string, path: seq<Cid>)
    requires WellStored(store, id) && Leads(store, path) && path[0] in store && store[path[0]].entity == id
    ensures path[|path| - 1] in store && store[path[|path| - 1]].entity == id
    ensures |path| > 1 ==> store[path[|path| - 1]].time < store[path[0]].time
    decreases |path|
  {
    if |path| > 1 {
      assert DepsOlder(store, id, path[0]);
      UnderIsOlder(store, id, path[1..]);
    }
  }

  /** The given heads that are not below another one. */
  ghost predicate IsTop(store: Store, heads: set<Cid>, c: Cid)
  {
    c in heads && forall h :: h in heads && Under(store, c, h) ==> h == c
  }

  lemma {:induction false} NeededIsUnder(store: Store, id: string, heads: set<Cid>, c: Cid)
    requires WellStored(store, id) && AllOf(store, id, heads)
    ensures Needed(store, id, heads, c) <==> UnderSome(store, c, heads)
  {
    if UnderSome(store, c, heads) {
      var h :| h in heads && Under(store, c, h);
      var path :| Leads(store, path) && path[0] == h && path[|path| - 1] == c;
      UnderIsOlder(store, id, path);
    }
  }

  /** All dependencies come before a change in every list, so nothing but the changes themselves matters. */
  lemma {:induction false} AcceptableAnywhere(store: Store, id: string, heads: set<Cid>, list: seq<Cid>,
                                              walls: Walls, n: nat)
    requires WellStored(store, id) && AllOf(store, id, heads) && IsListed(store, id, heads, list) && n < |list|
    ensures AcceptableAt(store, walls, list, n) <==> Acceptable(store, walls, list[n])
  {
    var c := list[n];
    assert c in CidSet(list) && Needed(store, id, heads, c) && DepsOlder(store, id, c);
    assert forall j :: n < j < |list| ==> Older(store, c, list[j]);
    forall d | d in store[c].deps
      ensures d in list[..n]
    {
      var h :| h in heads && Under(store, c, h);
      UnderOn(store, d, c, h);
      assert UnderSome(store, d, heads);
      NeededIsUnder(store, id, heads, d);
      assert d in CidSet(list);
      var i :| 0 <= i < |list| && list[i] == d;
    }
  }

  /** Among the heads and their ancestors nothing depends on a change exactly when it is a top head. */
  lemma {:induction false} NeededUnlessTop(store: Store, id: string, heads: set<Cid>, s: set<Cid>, c: Cid)
    requires WellStored(store, id) && AllOf(store, id, heads) && c in s
    requires forall d :: d in s <==> UnderSome(store, d, heads)
    ensures IsTop(store, heads, c) <==> NoneNeeds(store, s, c)
  {
    if d :| d in s && d in store && c in store[d].deps {
      var h :| h in heads && Under(store, d, h);
      UnderOn(store, c, d, h);
      NotUnderOlder(store, id, c, d, h);
    } else {
      forall h | h in heads && Under(store, c, h)
        ensures h == c
      {
        LastStep(store, heads, s, c, h);
      }
      assert UnderSome(store, c, heads);
    }
  }

  lemma {:induction false} NotUnderOlder(store: Store, id: string, c: Cid, d: Cid, h: Cid)
    requires WellStored(store, id) && h in store && store[h].entity == id && Under(store, d, h)
    requires d in store && c in store[d].deps
    ensures c != h
  {
    var path :| Leads(store, path) && path[0] == h && path[|path| - 1] == d;
    UnderIsOlder(store, id, path);
    assert DepsOlder(store, id, d);
  }

  /** Something in front of the end of a path needs it. */
  lemma {:induction false} NeededOnPath(store: Store, heads: set<Cid>, s: set<Cid>, path: seq<Cid>)
    requires Leads(store, path) && path[0] in heads && forall d :: d in s <==> UnderSome(store, d, heads)
    ensures |path| > 1 ==> !NoneNeeds(store, s, path[|path| - 1])
  {
    if |path| > 1 {
      var shorter := path[..|path| - 1];
      var d := shorter[|shorter| - 1];
      assert Leads(store, shorter) && d == path[|path| - 2] && path[|path| - 1] in store[d].deps;
      assert Under(store, d, path[0]) && UnderSome(store, d, heads);
    }
  }

  lemma {:induction false} LastStep(store: Store, heads: set<Cid>, s: set<Cid>, c: Cid, h: Cid)
    requires h in heads && Under(store, c, h) && forall d :: d in s <==> UnderSome(store, d, heads)
    requires NoneNeeds(store, s, c)
    ensures h == c
  {
    var path :| Leads(store, path) && path[0] == h && path[|path| - 1] == c;
    NeededOnPath(store, heads, s, path);
  }

  /** Whatever order the database chooses: loading succeeds exactly if all changes among the heads and
      their ancestors are acceptable, applies exactly these, and leaves the heads not below another. */
  lemma {:induction false} LoadsVersion(store: Store, id: string, heads: set<Cid>, list: seq<Cid>, walls: Walls, s: Snapshot)
    requires WellStored(store, id) && AllOf(store, id, heads) && IsListed(store, id, heads, list)
    ensures AllAcceptable(store, walls, list) <==> forall c :: UnderSome(store, c, heads) ==> Acceptable(store, walls, c)
    ensures IsLoaded(store, list, s) ==>
      && (forall c :: c in s.graph.applied <==> UnderSome(store, c, heads))
      && (forall c :: c in s.graph.heads <==> IsTop(store, heads, c))
  {
    var own := CidSet(list);
    forall c
      ensures c in own <==> UnderSome(store, c, heads)
    {
      NeededIsUnder(store, id, heads, c);
    }
    AcceptableTogether(store, id, heads, list, walls);
    forall c
      ensures c in own && NoneNeeds(store, own, c) <==> IsTop(store, heads, c)
    {
      if c in own {
        NeededUnlessTop(store, id, heads, own, c);
      } else if c in heads {
        UnderItself(store, c);
        assert UnderSome(store, c, heads);
      }
    }
  }

  lemma {:induction false} AcceptableTogether(store: Store, id: string, heads: set<Cid>, list: seq<Cid>, walls: Walls)
    requires WellStored(store, id) && AllOf(store, id, heads) && IsListed(store, id, heads, list)
    ensures AllAcceptable(store, walls, list) <==> forall c :: UnderSome(store, c, heads) ==> Acceptable(store, walls, c)
  {
    forall i | 0 <= i < |list|
      ensures AcceptableAt(store, walls, list, i) <==> Acceptable(store, walls, list[i])
      ensures UnderSome(store, list[i], heads)
    {
      AcceptableAnywhere(store, id, heads, list, walls, i);
      assert list[i] in CidSet(list);
    }
    forall c | UnderSome(store, c, heads)
      ensures c in list
    {
      NeededIsUnder(store, id, heads, c);
      assert c in CidSet(list);
    }
  }

  // ---- Which of two changes of the same time comes first ----

  lemma {:induction false} LoadedOneMore(store: Store, id: string, list: seq<Cid>, walls: Walls, i: nat, now: Snapshot,
                                         next: Snapshot)
    requires InTimeOrder(store, CidSet(list), list) && i < |list| && StoredAt(store, list, i).entity == id
    requires Applied(store, id, list, walls, i, now) && AcceptableAt(store, walls, list, i)
    requires next == RunOf(id, CallsOf(store, list, walls)[..i + 1])
    ensures Applied(store, id, list, walls, i + 1, next)
  {
    NextStep(store, id, list, walls, i, now);
    NextCall(store, id, list, walls, i);
  }

  lemma {:induction false} LoadedUpToEnd(store: Store, id: string, list: seq<Cid>, walls: Walls, n: nat, now: Snapshot)
    requires InTimeOrder(store, CidSet(list), list) && AllAcceptable(store, walls, list) && n <= |list|
    requires forall c :: c in CidSet(list) ==> store[c].entity == id
    requires now == RunOf(id, CallsOf(store, list, walls)[..n])
    ensures Applied(store, id, list, walls, n, now)
  {
    if n > 0 {
      var before := RunOf(id, CallsOf(store, list, walls)[..n - 1]);
      LoadedUpToEnd(store, id, list, walls, n - 1, before);
      assert list[n - 1] in CidSet(list) && AcceptableAt(store, walls, list, n - 1);
      LoadedOneMore(store, id, list, walls, n - 1, before, now);
    }
  }

  lemma {:induction false} LoadedChanges(store: Store, id: string, list: seq<Cid>, walls: Walls, st: Stored)
    requires InTimeOrder(store, CidSet(list), list) && AllAcceptable(store, walls, list)
    requires forall c :: c in CidSet(list) ==> store[c].entity == id
    ensures st in RunOf(id, CallsOf(store, list, walls)).graph.changes <==>
            st.cid in CidSet(list) && st.data == store[st.cid]
  {
    var calls := CallsOf(store, list, walls);
    var g := RunOf(id, calls).graph;
    assert calls[..|list|] == calls;
    LoadedUpToEnd(store, id, list, walls, |list|, RunOf(id, calls));
    AppliedIsLoaded(store, id, list, walls, RunOf(id, calls));
    EntityReplicas.AppliedAreChanges(g, st.cid);
    if x :| x in g.changes && x.cid == st.cid {
      var i :| 0 <= i < |g.changes| && g.changes[i] == x;
      assert g.changes[i].data == store[g.changes[i].cid];
    }
  }

  /** If two orders of the same changes both load, they load the same. */
  lemma {:induction false} LoadingIsDeterministic(store: Store, id: string, list: seq<Cid>, other: seq<Cid>, walls: Walls)
    requires InTimeOrder(store, CidSet(list), list) && InTimeOrder(store, CidSet(other), other)
    requires CidSet(list) == CidSet(other) && forall c :: c in CidSet(list) ==> store[c].entity == id
    requires AllAcceptable(store, walls, list) && AllAcceptable(store, walls, other)
    requires forall a, b :: a in CidSet(list) && b in CidSet(list) && StampOf(a, store[a]) == StampOf(b, store[b]) ==> a == b
    ensures LooksLike(RunOf(id, CallsOf(store, list, walls)), RunOf(id, CallsOf(store, other, walls)))
  {
    var g, h := RunOf(id, CallsOf(store, list, walls)).graph, RunOf(id, CallsOf(store, other, walls)).graph;
    forall st
      ensures st in g.changes <==> st.cid in CidSet(list) && st.data == store[st.cid]
      ensures st in h.changes <==> st.cid in CidSet(list) && st.data == store[st.cid]
    {
      LoadedChanges(store, id, list, walls, st);
      LoadedChanges(store, id, other, walls, st);
    }
    EntityReplicas.ReplicasConverge(id, CallsOf(store, list, walls), CallsOf(store, other, walls));
  }

  /** A change and its dependency, made at the same time. */
  const TIED: Store := map["a" := Change("e", "me", 0, [], None), "b" := Change("e", "me", 0, ["a"], None)]

  /** Both orders are in order of time, but only one of them loads. */
  lemma {:induction false} TieDecides(walls: Walls)
    requires walls("a") == 0 && walls("b") == 0
    ensures IsListed(TIED, "e", {"b"}, ["a", "b"]) && AllAcceptable(TIED, walls, ["a", "b"])
    ensures IsListed(TIED, "e", {"b"}, ["b", "a"]) && !AllAcceptable(TIED, walls, ["b", "a"])
  {
    var ab, ba := ["a", "b"], ["b", "a"];
    UnderItself(TIED, "b");
    UnderOn(TIED, "a", "b", "b");
    assert CidSet(ab) == {"a", "b"} == CidSet(ba);
    assert UnderSome(TIED, "a", {"b"}) && UnderSome(TIED, "b", {"b"});
    assert Hlc.ValidateSkew(0, 0) == Some(0);
    assert AcceptableAt(TIED, walls, ab, 0) && AcceptableAt(TIED, walls, ab, 1) by {
      assert ab[..1] == ["a"] && "a" in CidSet(ab[..1]);
    }
    assert !AcceptableAt(TIED, walls, ba, 0) by {
      assert "a" in CidSet(["a"]) && ba[..0] == [];
    }
  }
}

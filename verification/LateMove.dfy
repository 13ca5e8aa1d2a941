/** A move that arrives late: later moves are undone, the late one is applied and the later
    ones are redone (backend/crdt/tree.go). The links this works on may dangle: undoing the
    first placement of a node can leave a position in place. These lemmas say when undoing
    leads back to the ordered replay of the smaller moves, up to nodes these do not know,
    and that redoing then leads to the ordered replay of all moves. */
module LateMove {
  import opened Crdt
  import opened Options
  import opened MoveTree

  /** A move of the log, and the position its node had before, as far as recorded. */
  datatype Record = Record(move: Move, oldPosition: Option<PosKey>)

  /** `undoMove`: a node without an old position keeps its current one, no longer alive. */
  ghost function Undo(l: Links, node: string, prior: Option<PosKey>): Links
  {
    var dead := if node in l.pos then l.alive - {l.pos[node]} else l.alive;
    match prior
    case Some(key) => Links(l.pos[node := key], dead[key := node])
    case None => l.(alive := dead)
  }

  ghost function PositionIn(pos: map<string, PosKey>, n: string): Option<PosKey>
  {
    if n in pos then Some(pos[n]) else None
  }

  ghost function Known(ops: seq<Move>): set<string>
  {
    {ROOT, TRASH} + set i | 0 <= i < |ops| :: ops[i].node
  }

  /** Sentinels are never moved, and every parent is a sentinel or was placed by an earlier move. */
  ghost predicate Closed(ops: seq<Move>)
  {
    forall i :: 0 <= i < |ops| ==> ParentKnown(ops, i)
  }

  ghost predicate ParentKnown(ops: seq<Move>, i: nat)
    requires i < |ops|
  {
    !Sentinel(ops[i].node) && ops[i].parent in Known(ops[..i])
  }

  lemma {:induction false} ClosedPrefix(ops: seq<Move>, n: nat)
    requires Closed(ops) && n <= |ops|
    ensures Closed(ops[..n])
  {
    forall i | 0 <= i < n
      ensures ParentKnown(ops[..n], i)
    {
      assert ParentKnown(ops, i) && ops[..n][..i] == ops[..i];
    }
  }

  lemma {:induction false} KnownSnoc(ops: seq<Move>, m: Move)
    ensures Known(ops + [m]) == Known(ops) + {m.node}
  {
    var all := ops + [m];
    assert all[|ops|] == m;
    forall i | 0 <= i < |ops|
      ensures ops[i].node in Known(all)
    {
      assert all[i] == ops[i];
    }
  }

  /** In a closed log every moved node is placed, below a known one. */
  lemma {:induction false} EveryMovedNodeIsPlaced(ops: seq<Move>)
    requires Closed(ops) && NotUnderItself(ops)
    ensures forall n :: n in Replay(ops).pos <==> n in Known(ops) && !Sentinel(n)
    ensures forall n :: n in Replay(ops).pos ==> Replay(ops).pos[n].list in Known(ops)
  {
    if ops != [] {
      var k := |ops| - 1;
      var m, before := ops[k], ops[..k];
      assert ops == before + [m] && ParentKnown(ops, k);
      ClosedPrefix(ops, k);
      EveryMovedNodeIsPlaced(before);
      KnownSnoc(before, m);
      if m.node !in Known(before) {
        NeverAbove(Replay(before).pos, Known(before), m.node, m.parent);
      }
    }
  }

  /** A node outside a set closed under parents is above nothing in it. */
  lemma {:induction false} NeverAbove(pos: map<string, PosKey>, s: set<string>, a: string, b: string)
    requires b in s && a !in s && forall n :: n in s && n in pos ==> pos[n].list in s
    ensures !Ancestor(pos, a, b)
  {
    forall k: nat
      ensures !Above(pos, a, b, k)
    {
      assert forall m :: AgreeOn(pos, pos, m);
      UpAgrees(pos, pos, s, b, k);
    }
  }

  /** The links held while undoing and redoing, against the replay of the moves in force. Bad nodes are
      known ones that undoing has not led back to where they were. */
  ghost predicate Tracks(l: Links, ops: seq<Move>, bad: set<string>)
  {
    TracksLinks(l, Replay(ops), Known(ops) - bad)
  }

  ghost predicate TracksLinks(l: Links, r: Links, trusted: set<string>)
  {
    && (forall n :: n in trusted ==> AgreeOn(l.pos, r.pos, n))
    && (forall k :: k in r.alive && r.alive[k] in trusted ==> SameAlive(l, r, k))
    && (forall k :: k in l.alive ==> (k in r.alive && r.alive[k] in trusted) || Foreign(l, trusted, k))
  }

  ghost predicate SameAlive(l: Links, r: Links, k: PosKey)
    requires k in r.alive
  {
    k in l.alive && l.alive[k] == r.alive[k]
  }

  /** Alive for a bad node, or for one whose first placement is undone. */
  ghost predicate Foreign(l: Links, trusted: set<string>, k: PosKey)
    requires k in l.alive
  {
    l.alive[k] !in trusted && l.alive[k] in l.pos && l.pos[l.alive[k]] == k
  }

  /** Looking upwards from `b` for `a`, itself included, the node is met before `a` is. */
  ghost predicate Met(pos: map<string, PosKey>, a: string, b: string, x: string)
  {
    exists k: nat :: MetAfter(pos, a, b, x, k)
  }

  ghost predicate MetAfter(pos: map<string, PosKey>, a: string, b: string, x: string, k: nat)
  {
    Up(pos, b, k) == Some(x) && NotUpTo(pos, a, b, k)
  }

  ghost predicate NotUpTo(pos: map<string, PosKey>, a: string, b: string, k: nat)
  {
    forall j: nat :: j <= k ==> Up(pos, b, j) != Some(a)
  }

  /** The search meets no bad node. */
  ghost predicate Unmet(pos: map<string, PosKey>, bad: set<string>, a: string, b: string)
  {
    forall x :: x in bad ==> !Met(pos, a, b, x)
  }

  lemma {:induction false} MetStep(pos: map<string, PosKey>, a: string, b: string, x: string)
    requires Met(pos, a, b, x) && x in pos
    ensures pos[x].list == a || Met(pos, a, b, pos[x].list)
  {
    var k: nat :| MetAfter(pos, a, b, x, k);
    UpCompose(pos, b, k, 1);
    if pos[x].list != a {
      assert MetAfter(pos, a, b, pos[x].list, k + 1);
    }
  }

  /** Links that dangle or are bad are not followed in a search that should not meet them. */
  lemma {:induction false} AncestorsAgree(l: Links, ops: seq<Move>, bad: set<string>, a: string, b: string)
    requires Ordered(ops) && NotUnderItself(ops) && Closed(ops) && a != b && b in Known(ops)
    requires Unmet(Replay(ops).pos, bad, a, b)
    requires forall n :: n in Known(ops) - bad ==> AgreeOn(l.pos, Replay(ops).pos, n)
    ensures Ancestor(l.pos, a, b) <==> Ancestor(Replay(ops).pos, a, b)
    ensures Decided(l.pos, a, b)
  {
    var p := Replay(ops).pos;
    var met := set n | n in Known(ops) && Met(p, a, b, n);
    EveryMovedNodeIsPlaced(ops);
    ReplayInvariant(ops);
    assert MetAfter(p, a, b, b, 0);
    forall n | n in met
      ensures Followed(p, l.pos, met, a, n) && Followed(l.pos, p, met, a, n)
    {
      assert n !in bad && AgreeOn(l.pos, p, n);
      if n in p {
        MetStep(p, a, b, n);
      }
    }
    SearchesAgree(p, l.pos, met, a, b);
  }

  /** The two agree on the node, and it leads into the set or to the node looked for. */
  ghost predicate Followed(p: map<string, PosKey>, q: map<string, PosKey>, s: set<string>, a: string, n: string)
  {
    AgreeOn(p, q, n) && (n in p ==> p[n].list in s || p[n].list == a)
  }

  lemma {:induction false} SearchesAgree(p: map<string, PosKey>, q: map<string, PosKey>, s: set<string>,
                                         a: string, b: string)
    requires b in s && forall n :: n in s ==> Followed(p, q, s, a, n) && Followed(q, p, s, a, n)
    ensures Ancestor(p, a, b) <==> Ancestor(q, a, b)
    ensures Grounded(p, b) ==> Decided(q, a, b)
  {
    if Ancestor(p, a, b) {
      var k: nat :| Above(p, a, b, k);
      FoundToo(p, q, s, a, b, k);
    }
    if Ancestor(q, a, b) {
      var k: nat :| Above(q, a, b, k);
      FoundToo(q, p, s, a, b, k);
    } else if Grounded(p, b) {
      var k: nat :| EndsAfter(p, b, k);
      EndsToo(p, q, s, a, b, k);
    }
  }

  lemma {:induction false} FoundToo(p: map<string, PosKey>, q: map<string, PosKey>, s: set<string>,
                                    a: string, b: string, k: nat)
    requires b in s && forall n :: n in s ==> Followed(p, q, s, a, n)
    requires Above(p, a, b, k)
    ensures Ancestor(q, a, b)
    decreases k
  {
    assert Followed(p, q, s, a, b);
    AncestorStep(q, a, b);
    if p[b].list != a {
      FoundToo(p, q, s, a, p[b].list, k - 1);
    }
  }

  lemma {:induction false} EndsToo(p: map<string, PosKey>, q: map<string, PosKey>, s: set<string>,
                                   a: string, b: string, k: nat)
    requires b in s && forall n :: n in s ==> Followed(p, q, s, a, n)
    requires EndsAfter(p, b, k) && !Ancestor(p, a, b)
    ensures EndsAfter(q, b, k)
    decreases k
  {
    assert Followed(p, q, s, a, b);
    AncestorStep(p, a, b);
    if b in p {
      EndsToo(p, q, s, a, p[b].list, k - 1);
    }
  }

  ghost function Without(l: Links, key: PosKey): Links
  {
    l.(alive := l.alive - {key})
  }

  /** A link to an alive position is one to a position of the node itself. */
  ghost predicate OwnLinks(pos: map<string, PosKey>, alive: map<PosKey, string>)
  {
    forall n :: n in pos && pos[n] in alive ==> alive[pos[n]] == n
  }

  /** Bad nodes after a move: one that goes through is good again. */
  ghost function BadAfter(bad: set<string>, ops: seq<Move>, m: Move): set<string>
  {
    if Ancestor(Replay(ops).pos, m.node, m.parent) then bad else bad - {m.node}
  }

  /** The search made for the move ends, and comes out as in the replay. */
  ghost predicate SearchedRight(l: Links, r: Links, m: Move)
  {
    Decided(l.pos, m.node, m.parent) && (Ancestor(l.pos, m.node, m.parent) <==> Ancestor(r.pos, m.node, m.parent))
  }

  /** Doing or redoing the next move keeps track of the replay. */
  lemma {:induction false} PlaceTracks(l: Links, ops: seq<Move>, bad: set<string>, m: Move)
    requires Ordered(ops + [m]) && NotUnderItself(ops + [m]) && Closed(ops + [m])
    requires OwnLinks(l.pos, Replay(ops).alive) && SearchedRight(l, Replay(ops), m)
    requires Tracks(Without(l, m.Key()), ops, bad)
    ensures Tracks(MoveTo(l, m.node, m.Key()), ops + [m], BadAfter(bad, ops, m))
  {
    var all, trusted := ops + [m], Known(ops) - bad;
    assert all[..|ops|] == ops && all[|ops|] == m && ParentKnown(all, |ops|);
    OrderedPrefix(all, |ops|);
    ClosedPrefix(all, |ops|);
    NewKeyIsDead(all, |ops|);
    ReplayInvariant(ops);
    KnownSnoc(ops, m);
    if Ancestor(l.pos, m.node, m.parent) {
      SkippedIsKnown(ops, m);
      assert Known(all) - bad == trusted;
      SkippedTracks(l, Replay(ops), trusted, m);
    } else {
      assert Known(all) - (bad - {m.node}) == trusted + {m.node};
      MovedTracks(l, Replay(ops), trusted, m);
    }
  }

  lemma {:induction false} SkippedIsKnown(ops: seq<Move>, m: Move)
    requires Closed(ops) && NotUnderItself(ops) && m.parent in Known(ops)
    ensures Ancestor(Replay(ops).pos, m.node, m.parent) ==> m.node in Known(ops)
  {
    EveryMovedNodeIsPlaced(ops);
    if m.node !in Known(ops) {
      NeverAbove(Replay(ops).pos, Known(ops), m.node, m.parent);
    }
  }

  lemma {:induction false} SkippedTracks(l: Links, r: Links, trusted: set<string>, m: Move)
    requires TracksLinks(Without(l, m.Key()), r, trusted) && m.Key() !in r.alive
    requires Ancestor(l.pos, m.node, m.parent) && Ancestor(r.pos, m.node, m.parent)
    ensures TracksLinks(MoveTo(l, m.node, m.Key()), MoveTo(r, m.node, m.Key()), trusted)
  {
    assert r.alive - {m.Key()} == r.alive;
  }

  lemma {:induction false} MovedTracks(l: Links, r: Links, trusted: set<string>, m: Move)
    requires TracksLinks(Without(l, m.Key()), r, trusted) && m.Key() !in r.alive
    requires AliveIsCurrent(r) && OwnLinks(l.pos, r.alive)
    requires !Ancestor(l.pos, m.node, m.parent) && !Ancestor(r.pos, m.node, m.parent)
    ensures TracksLinks(MoveTo(l, m.node, m.Key()), MoveTo(r, m.node, m.Key()), trusted + {m.node})
  {
    var l0, l', r' := Without(l, m.Key()), MoveTo(l, m.node, m.Key()), MoveTo(r, m.node, m.Key());
    forall k | k in r'.alive && r'.alive[k] in trusted + {m.node}
      ensures SameAlive(l', r', k)
    {
      if k != m.Key() {
        assert k in r.alive && r.alive[k] != m.node;
        assert SameAlive(l0, r, k);
      }
    }
    forall k | k in l'.alive
      ensures (k in r'.alive && r'.alive[k] in trusted + {m.node}) || Foreign(l', trusted + {m.node}, k)
    {
      if k != m.Key() {
        assert k in l0.alive && ((k in r.alive && r.alive[k] in trusted) || Foreign(l0, trusted, k));
        assert m.node in trusted ==> AgreeOn(l0.pos, r.pos, m.node);
      }
    }
    forall n | n in trusted + {m.node}
      ensures AgreeOn(l'.pos, r'.pos, n)
    {
      assert n != m.node ==> AgreeOn(l0.pos, r.pos, n);
    }
  }

  // ---- Where the late move goes ----

  /** The log with the late move put where its identifier belongs. */
  ghost function Merged(ops: seq<Move>, dest: nat, m: Move): seq<Move>
    requires dest <= |ops|
  {
    ops[..dest] + [m] + ops[dest..]
  }

  ghost predicate Belongs(ops: seq<Move>, dest: nat, id: ID)
  {
    && dest <= |ops|
    && (forall i :: 0 <= i < dest ==> ops[i].id.Less(id))
    && (forall i :: dest <= i < |ops| ==> id.Less(ops[i].id))
  }

  lemma {:induction false} MergedIsOrdered(ops: seq<Move>, dest: nat, m: Move)
    requires Ordered(ops) && NotUnderItself(ops) && Belongs(ops, dest, m.id) && m.node != m.parent
    ensures Ordered(Merged(ops, dest, m)) && NotUnderItself(Merged(ops, dest, m))
  {
    var all := Merged(ops, dest, m);
    forall i, j | 0 <= i < j < |all|
      ensures Precedes(all, i, j)
    {
      assert i != dest && j != dest ==>
        Precedes(ops, if i < dest then i else i - 1, if j < dest then j else j - 1);
      assert i != dest ==> all[i] == ops[if i < dest then i else i - 1];
      assert j != dest ==> all[j] == ops[if j < dest then j else j - 1];
    }
  }

  lemma {:induction false} MergedIsClosed(ops: seq<Move>, dest: nat, m: Move)
    requires Closed(ops) && dest <= |ops| && !Sentinel(m.node) && m.parent in Known(ops[..dest])
    ensures Closed(Merged(ops, dest, m))
  {
    var all := Merged(ops, dest, m);
    forall i | 0 <= i < |all|
      ensures ParentKnown(all, i)
    {
      if i < dest {
        assert ParentKnown(ops, i) && all[..i] == ops[..i];
      } else if i == dest {
        assert all[..i] == ops[..dest];
      } else {
        assert ParentKnown(ops, i - 1) && all[i] == ops[i - 1];
        forall n | n in Known(ops[..i - 1])
          ensures n in Known(all[..i])
        {
          if !Sentinel(n) {
            var j :| 0 <= j < i - 1 && ops[..i - 1][j].node == n;
            assert all[..i][if j < dest then j else j + 1].node == n;
          }
        }
      }
    }
  }

  /** How many moves of an ordered log come before the identifier. */
  ghost function Dest(ops: seq<Move>, id: ID): (d: nat)
    ensures d <= |ops|
  {
    if ops == [] then 0
    else if ops[|ops| - 1].id.Less(id) then |ops|
    else Dest(ops[..|ops| - 1], id)
  }

  lemma {:induction false} DestStep(ops: seq<Move>, i: nat, id: ID)
    requires 0 < i <= |ops|
    ensures Dest(ops[..i], id) == if ops[i - 1].id.Less(id) then i else Dest(ops[..i - 1], id)
  {
    assert ops[..i][..i - 1] == ops[..i - 1];
  }

  lemma {:induction false} DestBelongs(ops: seq<Move>, id: ID)
    requires Ordered(ops) && forall i :: 0 <= i < |ops| ==> ops[i].id != id
    ensures Belongs(ops, Dest(ops, id), id)
  {
    if ops != [] {
      var n := |ops| - 1;
      if ops[n].id.Less(id) {
        forall i | 0 <= i < n
          ensures ops[i].id.Less(id)
        {
          assert Precedes(ops, i, n);
          IdTransitive(ops[i].id, ops[n].id, id);
        }
      } else {
        IdTrichotomy(ops[n].id, id);
        forall i, j | 0 <= i < j < n
          ensures Precedes(ops[..n], i, j)
        {
          assert Precedes(ops, i, j);
        }
        DestBelongs(ops[..n], id);
      }
    }
  }

  /** The node that a position of the log was made for. */
  ghost function OwnerOf(ops: seq<Move>, key: PosKey): Option<string>
  {
    if ops == [] then None
    else if ops[|ops| - 1].Key() == key then Some(ops[|ops| - 1].node)
    else OwnerOf(ops[..|ops| - 1], key)
  }

  ghost predicate HoldsOwn(pos: map<string, PosKey>, all: seq<Move>)
  {
    forall n :: n in pos ==> OwnerOf(all, pos[n]) == Some(n)
  }

  lemma {:induction false} OwnerAt(ops: seq<Move>, i: nat)
    requires Ordered(ops) && i < |ops|
    ensures OwnerOf(ops, ops[i].Key()) == Some(ops[i].node)
  {
    var n := |ops| - 1;
    if i < n {
      assert Precedes(ops, i, n);
      IdTrichotomy(ops[i].id, ops[n].id);
      forall j, k | 0 <= j < k < n
        ensures Precedes(ops[..n], j, k)
      {
        assert Precedes(ops, j, k);
      }
      OwnerAt(ops[..n], i);
    }
  }

  /** Positions alive after a part of the log belong to the nodes that the log made them for. */
  lemma {:induction false} AliveOwners(all: seq<Move>, n: nat, key: PosKey)
    requires Ordered(all) && n <= |all| && key in Replay(all[..n]).alive
    ensures OwnerOf(all, key) == Some(Replay(all[..n]).alive[key])
  {
    AliveFromLog(all[..n], key);
    var i :| 0 <= i < n && all[..n][i].Key() == key && all[..n][i].node == Replay(all[..n]).alive[key];
    OwnerAt(all, i);
  }

  lemma {:induction false} ReplayHoldsOwn(all: seq<Move>, n: nat)
    requires Ordered(all) && NotUnderItself(all) && n <= |all|
    ensures HoldsOwn(Replay(all[..n]).pos, all)
  {
    var r := Replay(all[..n]);
    OrderedPrefix(all, n);
    ReplayInvariant(all[..n]);
    forall x | x in r.pos
      ensures OwnerOf(all, r.pos[x]) == Some(x)
    {
      AliveOwners(all, n, r.pos[x]);
    }
  }

  lemma {:induction false} OwnPositions(pos: map<string, PosKey>, all: seq<Move>, i: nat)
    requires Ordered(all) && HoldsOwn(pos, all) && i < |all|
    ensures OwnLinks(pos, Replay(all[..i]).alive)
  {
    forall n | n in pos && pos[n] in Replay(all[..i]).alive
      ensures Replay(all[..i]).alive[pos[n]] == n
    {
      AliveOwners(all, i, pos[n]);
    }
  }

  lemma {:induction false} OwnersKept(pos: map<string, PosKey>, ops: seq<Move>, dest: nat, m: Move)
    requires dest <= |ops| && Ordered(Merged(ops, dest, m)) && HoldsOwn(pos, ops)
    ensures HoldsOwn(pos, Merged(ops, dest, m))
  {
    forall n | n in pos
      ensures OwnerOf(Merged(ops, dest, m), pos[n]) == Some(n)
    {
      OwnerKept(ops, dest, m, pos[n]);
    }
  }

  lemma {:induction false} OwnerKept(ops: seq<Move>, dest: nat, m: Move, key: PosKey)
    requires dest <= |ops| && Ordered(Merged(ops, dest, m)) && OwnerOf(ops, key).Some?
    ensures OwnerOf(Merged(ops, dest, m), key) == OwnerOf(ops, key)
  {
    var all := Merged(ops, dest, m);
    var i := OwnerIndex(ops, key);
    assert all[if i < dest then i else i + 1] == ops[i];
    OwnerAt(all, if i < dest then i else i + 1);
  }

  lemma {:induction false} OwnerIndex(ops: seq<Move>, key: PosKey) returns (i: nat)
    requires OwnerOf(ops, key).Some?
    ensures i < |ops| && ops[i].Key() == key && OwnerOf(ops, key) == Some(ops[i].node)
  {
    i := |ops| - 1;
    if ops[i].Key() != key {
      i := OwnerIndex(ops[..i], key);
    }
  }

  // ---- Undoing ----

  ghost function MovesOf(log: seq<Record>): (ops: seq<Move>)
    ensures |ops| == |log|
  {
    seq(|log|, i requires 0 <= i < |log| => log[i].move)
  }

  /** The links once all moves from the `i`-th on are undone, newest first. */
  ghost function UndoneFrom(l: Links, log: seq<Record>, i: nat): Links
    requires i <= |log|
    decreases |log| - i
  {
    if i == |log| then l else Undo(UndoneFrom(l, log, i + 1), log[i].move.node, log[i].oldPosition)
  }

  /** A record holds nothing, or a position made for its node. */
  ghost predicate OwnRecord(rec: Record, ops: seq<Move>)
  {
    rec.oldPosition.Some? ==> OwnerOf(ops, rec.oldPosition.value) == Some(rec.move.node)
  }

  ghost predicate OwnRecords(log: seq<Record>, ops: seq<Move>)
  {
    forall i :: 0 <= i < |log| ==> OwnRecord(log[i], ops)
  }

  ghost predicate IsCurrent(l: Links, k: PosKey)
    requires k in l.alive
  {
    l.alive[k] in l.pos && l.pos[l.alive[k]] == k
  }

  /** Apart from the position of the late move only current positions are alive. */
  ghost predicate Current(l: Links, late: PosKey)
  {
    forall k :: k in l.alive && k != late ==> IsCurrent(l, k)
  }

  ghost predicate AliveAt(l: Links, n: string)
  {
    n in l.pos && l.pos[n] in l.alive && l.alive[l.pos[n]] == n
  }

  /** The first move of the node from an index on, or the length of the log. */
  ghost function FirstAt(ops: seq<Move>, i: nat, n: string): (j: nat)
    requires i <= |ops|
    ensures i <= j <= |ops| && (j < |ops| ==> ops[j].node == n)
    ensures forall k :: i <= k < j ==> ops[k].node != n
    decreases |ops| - i
  {
    if i == |ops| || ops[i].node == n then i else FirstAt(ops, i + 1, n)
  }

  lemma {:induction false} UndoneKeepsOwn(l: Links, log: seq<Record>, ops: seq<Move>, i: nat, late: PosKey)
    requires i <= |log| && HoldsOwn(l.pos, ops) && OwnRecords(log, ops) && Current(l, late) && OwnerOf(ops, late) == None
    ensures HoldsOwn(UndoneFrom(l, log, i).pos, ops) && Current(UndoneFrom(l, log, i), late)
    decreases |log| - i
  {
    if i < |log| {
      var x, rec := UndoneFrom(l, log, i + 1), log[i];
      UndoneKeepsOwn(l, log, ops, i + 1, late);
      assert OwnRecord(rec, ops);
      var y := Undo(x, rec.move.node, rec.oldPosition);
      forall k | k in y.alive && k != late
        ensures IsCurrent(y, k)
      {
        assert k in x.alive ==> IsCurrent(x, k);
      }
    }
  }

  /** What undoing leaves of a node: its oldest record decides. */
  ghost predicate NodeUndone(l: Links, x: Links, log: seq<Record>, j: nat, n: string)
    requires j <= |log|
  {
    if j == |log| then AgreeOn(x.pos, l.pos, n) && (AliveAt(x, n) <==> AliveAt(l, n))
    else if log[j].oldPosition == None then !AliveAt(x, n)
    else AliveAt(x, n) && x.pos[n] == log[j].oldPosition.value
  }

  lemma {:induction false} OtherNode(x: Links, rec: Record, ops: seq<Move>, n: string)
    requires HoldsOwn(x.pos, ops) && OwnRecord(rec, ops) && rec.move.node != n
    ensures
      var y := Undo(x, rec.move.node, rec.oldPosition);
      AgreeOn(y.pos, x.pos, n) && (AliveAt(y, n) <==> AliveAt(x, n))
  {
    assert n in x.pos ==> OwnerOf(ops, x.pos[n]) == Some(n);
  }

  lemma {:induction false} UndoneNode(l: Links, log: seq<Record>, ops: seq<Move>, i: nat, late: PosKey, n: string)
    requires i <= |log| && ops == MovesOf(log) && HoldsOwn(l.pos, ops) && OwnRecords(log, ops)
    requires Current(l, late) && OwnerOf(ops, late) == None
    ensures NodeUndone(l, UndoneFrom(l, log, i), log, FirstAt(ops, i, n), n)
    decreases |log| - i
  {
    if i < |log| {
      var x, rec := UndoneFrom(l, log, i + 1), log[i];
      UndoneKeepsOwn(l, log, ops, i + 1, late);
      if rec.move.node != n {
        UndoneNode(l, log, ops, i + 1, late, n);
        OtherNode(x, rec, ops, n);
      }
    }
  }

  /** Moves of other nodes do not touch the position of a node. */
  lemma {:induction false} Untouched(ops: seq<Move>, i: nat, n: string)
    requires i <= |ops| && forall k :: i <= k < |ops| ==> ops[k].node != n
    ensures AgreeOn(Replay(ops).pos, Replay(ops[..i]).pos, n)
    decreases |ops|
  {
    if i == |ops| {
      assert ops[..i] == ops;
    } else {
      var init := ops[..|ops| - 1];
      assert init[..i] == ops[..i];
      Untouched(init, i, n);
    }
  }

  /** The oldest undone record of a node that the smaller moves know holds the position they gave it. */
  ghost predicate RecordOk(log: seq<Record>, ops: seq<Move>, dest: nat, i: nat)
    requires dest <= i < |ops| == |log|
  {
    FirstAt(ops, dest, ops[i].node) == i && ops[i].node in Known(ops[..dest]) ==>
      log[i].oldPosition == PositionIn(Replay(ops[..dest]).pos, ops[i].node)
  }

  ghost predicate RecordsOk(log: seq<Record>, ops: seq<Move>, dest: nat)
    requires dest <= |ops| == |log|
  {
    forall i :: dest <= i < |ops| ==> RecordOk(log, ops, dest, i)
  }

  /** The nodes known to the smaller moves whose oldest undone record is wrong. */
  ghost function BadNodes(log: seq<Record>, ops: seq<Move>, dest: nat): set<string>
    requires dest <= |ops| == |log|
  {
    set i | dest <= i < |ops| && !RecordOk(log, ops, dest, i) :: ops[i].node
  }

  lemma {:induction false} BadNodeFirst(log: seq<Record>, ops: seq<Move>, dest: nat, n: string)
    requires dest <= |ops| == |log|
    ensures n in BadNodes(log, ops, dest) <==>
            FirstAt(ops, dest, n) < |ops| && !RecordOk(log, ops, dest, FirstAt(ops, dest, n))
  {
    if i :| dest <= i < |ops| && !RecordOk(log, ops, dest, i) && ops[i].node == n {
      assert FirstAt(ops, dest, n) == i;
    }
  }

  lemma {:induction false} NoBadNodes(log: seq<Record>, ops: seq<Move>, dest: nat)
    requires dest <= |ops| == |log|
    ensures BadNodes(log, ops, dest) == {} <==> RecordsOk(log, ops, dest)
  {
    forall i | dest <= i < |ops|
      ensures !RecordOk(log, ops, dest, i) ==> ops[i].node in BadNodes(log, ops, dest)
    {
    }
  }

  /** All moves from the `i`-th on are undone as far as the moves before can tell, but for bad nodes;
      the position of the late move is set aside. */
  ghost predicate UndoneTo(l: Links, ops: seq<Move>, i: nat, late: PosKey, bad: set<string>)
    requires i <= |ops|
  {
    Tracks(Without(l, late), ops[..i], bad)
  }

  /** The links with the position of the late move, alive already. */
  ghost predicate AtFirst(l: Links, ops: seq<Move>, late: PosKey)
  {
    && OwnerOf(ops, late) == None && l.pos == Replay(ops).pos
    && late in l.alive && l.alive == Replay(ops).alive[late := l.alive[late]]
  }

  lemma {:induction false} FirstIsCurrent(l: Links, ops: seq<Move>, late: PosKey)
    requires Ordered(ops) && NotUnderItself(ops) && AtFirst(l, ops, late)
    ensures Current(l, late) && HoldsOwn(l.pos, ops)
    ensures forall n :: n in l.pos ==> AliveAt(l, n)
  {
    assert ops[..|ops|] == ops;
    ReplayHoldsOwn(ops, |ops|);
    ReplayInvariant(ops);
    forall n | n in l.pos
      ensures AliveAt(l, n)
    {
      assert OwnerOf(ops, l.pos[n]) == Some(n);
    }
  }

  /** Undoing leads back to the ordered replay of the smaller moves, on the nodes these know but for bad
      ones, and a bad node is not back at its position. */
  lemma {:induction false} UndoneButBad(l: Links, log: seq<Record>, ops: seq<Move>, dest: nat, late: PosKey)
    requires dest <= |log| && ops == MovesOf(log) && AtFirst(l, ops, late) && OwnRecords(log, ops)
    requires Ordered(ops) && NotUnderItself(ops) && Closed(ops)
    ensures UndoneTo(UndoneFrom(l, log, dest), ops, dest, late, BadNodes(log, ops, dest))
    ensures AllWrong(UndoneFrom(l, log, dest), Replay(ops[..dest]), BadNodes(log, ops, dest))
  {
    var x := UndoneFrom(l, log, dest);
    FirstIsCurrent(l, ops, late);
    UndoneKeepsOwn(l, log, ops, dest, late);
    forall n
      ensures NodeUndone(l, x, log, FirstAt(ops, dest, n), n)
    {
      UndoneNode(l, log, ops, dest, late, n);
    }
    GoodAreBack(l, x, log, ops, dest, late);
    BadAreWrong(l, x, log, ops, dest);
  }

  /** Exactly if no record is wrong all are back. */
  lemma {:induction false} UndoneExactly(l: Links, log: seq<Record>, ops: seq<Move>, dest: nat, late: PosKey)
    requires dest <= |log| && ops == MovesOf(log) && AtFirst(l, ops, late) && OwnRecords(log, ops)
    requires Ordered(ops) && NotUnderItself(ops) && Closed(ops)
    ensures UndoneTo(UndoneFrom(l, log, dest), ops, dest, late, {}) <==> RecordsOk(log, ops, dest)
  {
    var x := UndoneFrom(l, log, dest);
    UndoneButBad(l, log, ops, dest, late);
    NoBadNodes(log, ops, dest);
    if UndoneTo(x, ops, dest, late, {}) && BadNodes(log, ops, dest) != {} {
      var n :| n in BadNodes(log, ops, dest);
      assert Wrong(x, Replay(ops[..dest]), n);
      TrackedIsRight(x, ops, dest, late, n);
    }
  }

  /** The node is not where the replay has it, or not alive there. */
  ghost predicate Wrong(l: Links, r: Links, n: string)
  {
    n in r.pos && !(AliveAt(l, n) && AgreeOn(l.pos, r.pos, n))
  }

  ghost predicate AllWrong(l: Links, r: Links, bad: set<string>)
  {
    forall n :: n in bad ==> Wrong(l, r, n)
  }

  lemma {:induction false} TrackedIsRight(x: Links, ops: seq<Move>, dest: nat, late: PosKey, n: string)
    requires dest <= |ops| && Ordered(ops) && NotUnderItself(ops) && Closed(ops) && OwnerOf(ops, late) == None
    requires UndoneTo(x, ops, dest, late, {}) && n in Replay(ops[..dest]).pos
    ensures !Wrong(x, Replay(ops[..dest]), n)
  {
    var r, y := Replay(ops[..dest]), Without(x, late);
    OrderedPrefix(ops, dest);
    ClosedPrefix(ops, dest);
    EveryMovedNodeIsPlaced(ops[..dest]);
    ReplayInvariant(ops[..dest]);
    assert n in Known(ops[..dest]) - {} && r.pos[n] in r.alive;
    assert AgreeOn(y.pos, r.pos, n) && SameAlive(y, r, r.pos[n]);
  }

  lemma {:induction false} BadAreWrong(l: Links, x: Links, log: seq<Record>, ops: seq<Move>, dest: nat)
    requires dest <= |log| && ops == MovesOf(log) && NotUnderItself(ops) && Closed(ops)
    requires forall n :: NodeUndone(l, x, log, FirstAt(ops, dest, n), n)
    ensures AllWrong(x, Replay(ops[..dest]), BadNodes(log, ops, dest))
  {
    var r := Replay(ops[..dest]);
    ClosedPrefix(ops, dest);
    NotUnderItselfPrefix(ops, dest);
    EveryMovedNodeIsPlaced(ops[..dest]);
    forall n | n in BadNodes(log, ops, dest)
      ensures Wrong(x, r, n)
    {
      var j := FirstAt(ops, dest, n);
      BadNodeFirst(log, ops, dest, n);
      assert ParentKnown(ops, j) && NodeUndone(l, x, log, j, n);
    }
  }

  lemma {:induction false} NotUnderItselfPrefix(ops: seq<Move>, n: nat)
    requires NotUnderItself(ops) && n <= |ops|
    ensures NotUnderItself(ops[..n])
  {
  }

  lemma {:induction false} BackAtPosition(l: Links, x: Links, log: seq<Record>, ops: seq<Move>, dest: nat,
                                          late: PosKey, n: string)
    requires dest <= |log| && ops == MovesOf(log) && n in Known(ops[..dest]) - BadNodes(log, ops, dest)
    requires Ordered(ops) && NotUnderItself(ops) && Closed(ops) && AtFirst(l, ops, late)
    requires NodeUndone(l, x, log, FirstAt(ops, dest, n), n)
    ensures AgreeOn(x.pos, Replay(ops[..dest]).pos, n) && (n in x.pos ==> AliveAt(x, n))
  {
    var j := FirstAt(ops, dest, n);
    OrderedPrefix(ops, dest);
    ClosedPrefix(ops, dest);
    EveryMovedNodeIsPlaced(ops[..dest]);
    if j == |ops| {
      Untouched(ops, dest, n);
      FirstIsCurrent(l, ops, late);
    } else {
      BadNodeFirst(log, ops, dest, n);
      assert RecordOk(log, ops, dest, j) && ParentKnown(ops, j);
    }
  }

  lemma {:induction false} GoodAreBack(l: Links, x: Links, log: seq<Record>, ops: seq<Move>, dest: nat, late: PosKey)
    requires dest <= |log| && ops == MovesOf(log) && AtFirst(l, ops, late)
    requires Ordered(ops) && NotUnderItself(ops) && Closed(ops) && Current(x, late) && HoldsOwn(x.pos, ops)
    requires forall n :: NodeUndone(l, x, log, FirstAt(ops, dest, n), n)
    ensures UndoneTo(x, ops, dest, late, BadNodes(log, ops, dest))
  {
    var r, y, trusted := Replay(ops[..dest]), Without(x, late), Known(ops[..dest]) - BadNodes(log, ops, dest);
    OrderedPrefix(ops, dest);
    ReplayInvariant(ops[..dest]);
    forall n | n in trusted
      ensures AgreeOn(x.pos, r.pos, n) && (n in x.pos ==> AliveAt(x, n))
    {
      BackAtPosition(l, x, log, ops, dest, late, n);
    }
    forall k | k in r.alive && r.alive[k] in trusted
      ensures SameAlive(y, r, k)
    {
      assert AgreeOn(x.pos, r.pos, r.alive[k]) && OwnerOf(ops, k) == Some(r.alive[k]);
    }
    forall k | k in y.alive
      ensures (k in r.alive && r.alive[k] in trusted) || Foreign(y, trusted, k)
    {
      assert IsCurrent(x, k);
      assert x.alive[k] in trusted ==> AgreeOn(x.pos, r.pos, x.alive[k]);
    }
  }

  lemma {:induction false} KnownStays(ops: seq<Move>, i: nat, j: nat)
    requires i <= j <= |ops|
    ensures Known(ops[..i]) <= Known(ops[..j])
  {
    forall k | 0 <= k < i
      ensures ops[..i][k].node in Known(ops[..j])
    {
      assert ops[..j][k] == ops[..i][k];
    }
  }

  /** Records that hold the replayed positions of nodes known by then are as good as any. */
  lemma {:induction false} AccurateIsOk(log: seq<Record>, ops: seq<Move>, dest: nat)
    requires dest <= |ops| == |log|
    requires forall i :: dest <= i < |ops| && ops[i].node in Known(ops[..i]) ==>
      log[i].oldPosition == PositionIn(Replay(ops[..i]).pos, ops[i].node)
    ensures RecordsOk(log, ops, dest)
  {
    forall i | dest <= i < |ops|
      ensures RecordOk(log, ops, dest, i)
    {
      if FirstAt(ops, dest, ops[i].node) == i {
        assert ops[..i][..dest] == ops[..dest];
        KnownStays(ops, dest, i);
        Untouched(ops[..i], dest, ops[i].node);
      }
    }
  }

  // ---- Redoing ----

  /** The links after the moves from one index up to another. */
  ghost function RedoneTo(l: Links, ops: seq<Move>, from: nat, i: nat): Links
    requires from <= i <= |ops|
  {
    if i == from then l else MoveTo(RedoneTo(l, ops, from, i - 1), ops[i - 1].node, ops[i - 1].Key())
  }

  /** The bad nodes left once the moves before the `i`-th are redone. */
  ghost function BadAt(bad: set<string>, all: seq<Move>, from: nat, i: nat): set<string>
    requires from <= i <= |all|
  {
    if i == from then bad else BadAfter(BadAt(bad, all, from, i - 1), all[..i - 1], all[i - 1])
  }

  /** The search made for the `i`-th move meets no node that is bad then. */
  ghost predicate UnmetAt(bad: set<string>, all: seq<Move>, from: nat, i: nat)
    requires from <= i < |all|
  {
    Unmet(Replay(all[..i]).pos, BadAt(bad, all, from, i), all[i].node, all[i].parent)
  }

  /** The ordered replay does not skip the move. */
  ghost predicate GoesThrough(all: seq<Move>, i: nat)
    requires i < |all|
  {
    !Ancestor(Replay(all[..i]).pos, all[i].node, all[i].parent)
  }

  lemma {:induction false} GoesThroughSoFar(ops: seq<Move>, n: nat, i: nat)
    requires i < n <= |ops|
    ensures GoesThrough(ops[..n], i) <==> GoesThrough(ops, i)
  {
    assert ops[..n][..i] == ops[..i];
  }

  /** The ordered replay has each node where its last move that goes through puts it. */
  lemma {:induction false} ReplayPlaces(ops: seq<Move>, i: nat)
    requires i < |ops| && GoesThrough(ops, i) && !MovedAgain(ops, i + 1, |ops|, ops[i].node)
    ensures ops[i].node in Replay(ops).pos && Replay(ops).pos[ops[i].node] == ops[i].Key()
  {
    var n := |ops| - 1;
    if i < n {
      GoesThroughSoFar(ops, n, i);
      forall j | i + 1 <= j < n && ops[..n][j].node == ops[i].node
        ensures !GoesThrough(ops[..n], j)
      {
        GoesThroughSoFar(ops, n, j);
        assert !(ops[j].node == ops[i].node && GoesThrough(ops, j));
      }
      ReplayPlaces(ops[..n], i);
      assert !(ops[n].node == ops[i].node && GoesThrough(ops, n));
    }
  }

  /** A node none of whose moves goes through has no place. */
  lemma {:induction false} NeverPlaced(ops: seq<Move>, x: string)
    requires !MovedAgain(ops, 0, |ops|, x)
    ensures x !in Replay(ops).pos
  {
    if ops != [] {
      var n := |ops| - 1;
      forall j | 0 <= j < n && ops[..n][j].node == x
        ensures !GoesThrough(ops[..n], j)
      {
        GoesThroughSoFar(ops, n, j);
        assert !(ops[j].node == x && GoesThrough(ops, j));
      }
      NeverPlaced(ops[..n], x);
      assert !(ops[n].node == x && GoesThrough(ops, n));
    }
  }

  /** Some move of the node from one index up to another goes through in the ordered replay. */
  ghost predicate MovedAgain(all: seq<Move>, from: nat, i: nat, n: string)
    requires i <= |all|
  {
    exists j :: from <= j < i && all[j].node == n && GoesThrough(all, j)
  }

  /** A bad node stays bad until a move of it goes through again. */
  lemma {:induction false} StillBad(bad: set<string>, all: seq<Move>, from: nat, i: nat, n: string)
    requires from <= i <= |all|
    ensures n in BadAt(bad, all, from, i) <==> n in bad && !MovedAgain(all, from, i, n)
  {
    if i > from {
      StillBad(bad, all, from, i - 1, n);
      assert GoesThrough(all, i - 1) || !GoesThrough(all, i - 1);
    }
  }

  lemma {:induction false} NeverBad(all: seq<Move>, from: nat, i: nat)
    requires from <= i <= |all|
    ensures BadAt({}, all, from, i) == {}
  {
    if i > from {
      NeverBad(all, from, i - 1);
    }
  }

  /** All moves before the `i`-th are done. */
  ghost predicate DoneTo(l: Links, ops: seq<Move>, i: nat, bad: set<string>)
    requires i <= |ops|
  {
    Tracks(l, ops[..i], bad) && HoldsOwn(l.pos, ops) && AllWrong(l, Replay(ops[..i]), bad)
  }

  /** Ready to do the `i`-th move: its position may be alive already. */
  ghost predicate ReadyAt(l: Links, all: seq<Move>, i: nat, bad: set<string>)
    requires i < |all|
  {
    && Tracks(Without(l, all[i].Key()), all[..i], bad) && HoldsOwn(l.pos, all)
    && AllWrong(l, Replay(all[..i]), bad)
  }

  lemma {:induction false} StepAt(l: Links, all: seq<Move>, i: nat, bad: set<string>)
    requires i < |all| && Ordered(all) && NotUnderItself(all) && Closed(all)
    requires ReadyAt(l, all, i, bad) && SearchedRight(l, Replay(all[..i]), all[i])
    ensures DoneTo(MoveTo(l, all[i].node, all[i].Key()), all, i + 1, BadAfter(bad, all[..i], all[i]))
  {
    var before, m := all[..i], all[i];
    assert all[..i + 1] == before + [m];
    OrderedPrefix(all, i + 1);
    ClosedPrefix(all, i + 1);
    OwnPositions(l.pos, all, i);
    OwnerAt(all, i);
    PlaceTracks(l, before, bad, m);
    StaysWrong(l, before, bad, m);
  }

  /** A search that meets no bad node comes out right. */
  lemma {:induction false} UnmetIsRight(l: Links, all: seq<Move>, i: nat, bad: set<string>)
    requires i < |all| && Ordered(all) && NotUnderItself(all) && Closed(all)
    requires ReadyAt(l, all, i, bad) && Unmet(Replay(all[..i]).pos, bad, all[i].node, all[i].parent)
    ensures SearchedRight(l, Replay(all[..i]), all[i])
  {
    assert ParentKnown(all, i);
    OrderedPrefix(all, i);
    ClosedPrefix(all, i);
    AncestorsAgree(l, all[..i], bad, all[i].node, all[i].parent);
  }

  /** A bad node stays where it is until a move of it goes through. */
  lemma {:induction false} StaysWrong(l: Links, ops: seq<Move>, bad: set<string>, m: Move)
    requires AllWrong(l, Replay(ops), bad)
    requires Ancestor(l.pos, m.node, m.parent) <==> Ancestor(Replay(ops).pos, m.node, m.parent)
    ensures AllWrong(MoveTo(l, m.node, m.Key()), Replay(ops + [m]), BadAfter(bad, ops, m))
  {
    var l', r' := MoveTo(l, m.node, m.Key()), Replay(ops + [m]);
    assert (ops + [m])[..|ops|] == ops;
    forall n | n in BadAfter(bad, ops, m)
      ensures Wrong(l', r', n)
    {
      assert Wrong(l, Replay(ops), n);
    }
  }

  lemma {:induction false} SetAside(l: Links, all: seq<Move>, i: nat, bad: set<string>)
    requires i < |all| && Ordered(all) && Tracks(l, all[..i], bad)
    ensures Tracks(Without(l, all[i].Key()), all[..i], bad)
  {
    var r, y := Replay(all[..i]), Without(l, all[i].Key());
    NewKeyIsDead(all, i);
    forall k | k in r.alive && r.alive[k] in Known(all[..i]) - bad
      ensures SameAlive(y, r, k)
    {
      assert SameAlive(l, r, k);
    }
  }

  lemma {:induction false} NextReady(x: Links, y: Links, all: seq<Move>, i: nat, bad: set<string>)
    requires 0 < i < |all| && Ordered(all) && NotUnderItself(all) && Closed(all) && ReadyAt(x, all, i - 1, bad)
    requires SearchedRight(x, Replay(all[..i - 1]), all[i - 1])
    requires y == MoveTo(x, all[i - 1].node, all[i - 1].Key())
    ensures ReadyAt(y, all, i, BadAfter(bad, all[..i - 1], all[i - 1]))
  {
    StepAt(x, all, i - 1, bad);
    SetAside(y, all, i, BadAfter(bad, all[..i - 1], all[i - 1]));
  }

  /** Redoing has kept track of the replay up to the `i`-th move. */
  ghost predicate RedoneReady(l: Links, all: seq<Move>, from: nat, i: nat, bad: set<string>)
    requires from <= i < |all|
  {
    ReadyAt(RedoneTo(l, all, from, i), all, i, BadAt(bad, all, from, i))
  }

  /** The search made when the `i`-th move is redone comes out right. */
  ghost predicate RightAt(l: Links, all: seq<Move>, from: nat, i: nat)
    requires from <= i < |all|
  {
    SearchedRight(RedoneTo(l, all, from, i), Replay(all[..i]), all[i])
  }

  lemma {:induction false} RedoNext(l: Links, all: seq<Move>, from: nat, i: nat, bad: set<string>)
    requires from < i < |all| && Ordered(all) && NotUnderItself(all) && Closed(all)
    requires RedoneReady(l, all, from, i - 1, bad) && RightAt(l, all, from, i - 1)
    ensures RedoneReady(l, all, from, i, bad)
  {
    NextReady(RedoneTo(l, all, from, i - 1), RedoneTo(l, all, from, i), all, i, BadAt(bad, all, from, i - 1));
  }

  /** Redoing keeps track of the replay all the way, as long as the searches come out right. */
  lemma {:induction false} RedoTracks(l: Links, all: seq<Move>, from: nat, i: nat, bad: set<string>)
    requires from <= i < |all| && Ordered(all) && NotUnderItself(all) && Closed(all) && ReadyAt(l, all, from, bad)
    requires forall j :: from <= j < i ==> RightAt(l, all, from, j)
    ensures RedoneReady(l, all, from, i, bad)
  {
    if i > from {
      RedoTracks(l, all, from, i - 1, bad);
      RedoNext(l, all, from, i, bad);
    }
  }

  lemma {:induction false} UnmetNext(l: Links, all: seq<Move>, from: nat, i: nat, bad: set<string>)
    requires from <= i < |all| && Ordered(all) && NotUnderItself(all) && Closed(all)
    requires RedoneReady(l, all, from, i, bad) && UnmetAt(bad, all, from, i)
    ensures RightAt(l, all, from, i)
  {
    UnmetIsRight(RedoneTo(l, all, from, i), all, i, BadAt(bad, all, from, i));
  }

  /** They do as long as they meet no node that is bad then. */
  lemma {:induction false} UnmetRedo(l: Links, all: seq<Move>, from: nat, i: nat, bad: set<string>)
    requires from <= i < |all| && Ordered(all) && NotUnderItself(all) && Closed(all) && ReadyAt(l, all, from, bad)
    requires forall j :: from <= j <= i ==> UnmetAt(bad, all, from, j)
    ensures RedoneReady(l, all, from, i, bad) && RightAt(l, all, from, i)
  {
    if i > from {
      UnmetRedo(l, all, from, i - 1, bad);
      RedoNext(l, all, from, i, bad);
    }
    UnmetNext(l, all, from, i, bad);
  }

  /** Once everything is redone nothing dangles, and exactly if no bad node is left all is in its place. */
  lemma {:induction false} AllDone(l: Links, ops: seq<Move>, bad: set<string>)
    requires Ordered(ops) && NotUnderItself(ops) && Closed(ops) && DoneTo(l, ops, |ops|, bad)
    ensures l == Replay(ops) <==> bad == {}
  {
    assert ops[..|ops|] == ops;
    if bad == {} {
      NothingDangles(l, ops);
    } else {
      var n :| n in bad;
      ReplayInvariant(ops);
      RightWhereReplayed(Replay(ops), n);
      assert Wrong(l, Replay(ops), n);
    }
  }

  lemma {:induction false} RightWhereReplayed(r: Links, n: string)
    requires AliveIsCurrent(r)
    ensures !Wrong(r, r, n)
  {
  }

  lemma {:induction false} NothingDangles(l: Links, ops: seq<Move>)
    requires NotUnderItself(ops) && Closed(ops) && Tracks(l, ops, {}) && HoldsOwn(l.pos, ops)
    requires Ordered(ops)
    ensures l == Replay(ops)
  {
    var r := Replay(ops);
    assert Known(ops) - {} == Known(ops);
    EveryMovedNodeIsPlaced(ops);
    ReplayInvariant(ops);
    forall n
      ensures n in l.pos <==> n in r.pos
      ensures n in l.pos ==> l.pos[n] == r.pos[n] && n in Known(ops)
    {
      if n in l.pos {
        var i := OwnerIndex(ops, l.pos[n]);
      }
      assert n in Known(ops) ==> AgreeOn(l.pos, r.pos, n);
    }
    assert l.pos == r.pos;
    forall k
      ensures k in l.alive <==> k in r.alive
      ensures k in r.alive ==> l.alive[k] == r.alive[k]
    {
      assert k in r.alive ==> SameAlive(l, r, k);
      assert k in l.alive ==> (k in r.alive && r.alive[k] in Known(ops)) || Foreign(l, Known(ops), k);
    }
    assert l.alive == r.alive;
  }

  // ---- Searches that cannot be wrong without harm ----

  ghost predicate LastOfNode(all: seq<Move>, i: nat)
    requires i < |all|
  {
    forall j :: i < j < |all| ==> all[j].node != all[i].node
  }

  lemma {:induction false} ReplayIsRedone(all: seq<Move>, from: nat, i: nat)
    requires from <= i <= |all|
    ensures RedoneTo(Replay(all[..from]), all, from, i) == Replay(all[..i])
  {
    if i > from {
      ReplayIsRedone(all, from, i - 1);
      assert all[..i][..i - 1] == all[..i - 1];
    }
  }

  /** What the last move of a node has done to it is never touched again. */
  lemma {:induction false} KeptSince(l: Links, all: seq<Move>, from: nat, i: nat, k: nat)
    requires from <= i < k <= |all| && Ordered(all) && LastOfNode(all, i)
    ensures
      var m, x := all[i], RedoneTo(l, all, from, k);
      if Ancestor(RedoneTo(l, all, from, i).pos, m.node, m.parent) then m.Key() !in x.alive
      else m.node in x.pos && x.pos[m.node] == m.Key()
  {
    if k > i + 1 {
      KeptSince(l, all, from, i, k - 1);
      if all[k - 1].Key() == all[i].Key() {
        OrderedIds(all, i, k - 1);
      }
    }
  }

  /** If redoing ends at the ordered replay, then the last search for each node comes out as there. */
  lemma {:induction false} LastVerdict(l: Links, all: seq<Move>, from: nat, i: nat)
    requires from <= i < |all| && Ordered(all) && NotUnderItself(all) && LastOfNode(all, i)
    requires RedoneTo(l, all, from, |all|) == Replay(all)
    ensures Ancestor(RedoneTo(l, all, from, i).pos, all[i].node, all[i].parent) <==> !GoesThrough(all, i)
  {
    assert all[..|all|] == all;
    KeptSince(l, all, from, i, |all|);
    ReplayIsRedone(all, from, i);
    ReplayIsRedone(all, from, |all|);
    KeptSince(Replay(all[..from]), all, from, i, |all|);
    ReplayInvariant(all);
  }
}

/** What a log of tree moves means: the placement reached by applying the moves in the
    order of the log, with moves that would close a cycle skipped (backend/crdt/tree.go).
    Class `Tree` in module `Trees` computes it in place. */
module MoveTree {
  import opened Crdt
  import opened Options

  const ROOT := "$ROOT$"
  const TRASH := "$TRASH$"

  predicate Sentinel(n: string)
  {
    n == ROOT || n == TRASH
  }

  /** A position is known by the list it is in and its identifier there. */
  datatype PosKey = PosKey(list: string, id: ID)

  datatype Move = Move(id: ID, node: string, parent: string, ref: ID)
  {
    function Key(): PosKey
    {
      PosKey(parent, id)
    }
  }

  /** Where each placed node is, and which node each alive position holds. */
  datatype Links = Links(pos: map<string, PosKey>, alive: map<PosKey, string>)

  // ---- Following parents ----

  /** The node reached from `n` in `k` steps upwards. */
  ghost function Up(pos: map<string, PosKey>, n: string, k: nat): Option<string>
    decreases k
  {
    if k == 0 then Some(n) else if n in pos then Up(pos, pos[n].list, k - 1) else None
  }

  ghost predicate Above(pos: map<string, PosKey>, a: string, b: string, k: nat)
  {
    k >= 1 && Up(pos, b, k) == Some(a)
  }

  /** `a` is a proper, possibly transitive, ancestor of `b`. */
  ghost predicate Ancestor(pos: map<string, PosKey>, a: string, b: string)
  {
    exists k: nat :: Above(pos, a, b, k)
  }

  ghost predicate EndsAfter(pos: map<string, PosKey>, n: string, k: nat)
  {
    Up(pos, n, k) == None
  }

  /** Following parents from `n` comes to an end. */
  ghost predicate Grounded(pos: map<string, PosKey>, n: string)
  {
    exists k: nat :: EndsAfter(pos, n, k)
  }

  lemma {:induction false} AncestorStep(pos: map<string, PosKey>, a: string, b: string)
    ensures Ancestor(pos, a, b) <==> b in pos && (pos[b].list == a || Ancestor(pos, a, pos[b].list))
  {
    if Ancestor(pos, a, b) {
      var k: nat :| Above(pos, a, b, k);
      assert k > 1 ==> Above(pos, a, pos[b].list, k - 1);
    }
    if b in pos && pos[b].list == a {
      assert Above(pos, a, b, 1);
    } else if b in pos && Ancestor(pos, a, pos[b].list) {
      var k: nat :| Above(pos, a, pos[b].list, k);
      assert Above(pos, a, b, k + 1);
    }
  }

  /** Looking for `a` above `b` comes to an end: it is found, or the top is reached. */
  ghost predicate Decided(pos: map<string, PosKey>, a: string, b: string)
  {
    Ancestor(pos, a, b) || Grounded(pos, b)
  }

  ghost predicate Acyclic(pos: map<string, PosKey>)
  {
    forall n :: Grounded(pos, n)
  }

  lemma {:induction false} UpCompose(pos: map<string, PosKey>, n: string, j: nat, k: nat)
    ensures Up(pos, n, j + k) == if Up(pos, n, j).Some? then Up(pos, Up(pos, n, j).value, k) else None
    decreases j
  {
    if j > 0 && n in pos {
      UpCompose(pos, pos[n].list, j - 1, k);
    }
  }

  /** A node that is its own ancestor never gets to the top. */
  lemma {:induction false} CycleNeverEnds(pos: map<string, PosKey>, n: string, j: nat, k: nat)
    requires j >= 1 && Up(pos, n, j) == Some(n)
    ensures Up(pos, n, k).Some?
    decreases k
  {
    if k < j {
      UpCompose(pos, n, k, j - k);
    } else {
      UpCompose(pos, n, j, k - j);
      CycleNeverEnds(pos, n, j, k - j);
    }
  }

  lemma {:induction false} NotOwnAncestor(pos: map<string, PosKey>, n: string)
    requires Grounded(pos, n)
    ensures !Ancestor(pos, n, n)
  {
    var k: nat :| EndsAfter(pos, n, k);
    if Ancestor(pos, n, n) {
      var j: nat :| Above(pos, n, n, j);
      CycleNeverEnds(pos, n, j, k);
    }
  }

  /** Two placements that agree on a set of nodes closed under parents agree on all chains from it. */
  lemma {:induction false} UpAgrees(p: map<string, PosKey>, q: map<string, PosKey>, s: set<string>, n: string, k: nat)
    requires n in s && forall m :: m in s ==> AgreeOn(p, q, m) && (m in p ==> p[m].list in s)
    ensures Up(p, n, k) == Up(q, n, k)
    ensures Up(p, n, k).Some? ==> Up(p, n, k).value in s
    decreases k
  {
    assert AgreeOn(p, q, n);
    if k > 0 && n in p {
      UpAgrees(p, q, s, p[n].list, k - 1);
    }
  }

  ghost predicate AgreeOn(p: map<string, PosKey>, q: map<string, PosKey>, m: string)
  {
    (m in p <==> m in q) && (m in p ==> p[m] == q[m])
  }

  /** Changing the position of `x` does not matter to a chain that does not meet `x`. */
  lemma {:induction false} UpAvoiding(p: map<string, PosKey>, q: map<string, PosKey>, x: string, n: string, k: nat)
    requires forall m :: m != x ==> AgreeOn(p, q, m)
    requires forall j: nat :: j < k ==> Up(p, n, j) != Some(x)
    ensures Up(p, n, k) == Up(q, n, k)
    decreases k
  {
    if k > 0 {
      assert Up(p, n, 0) != Some(x);
      assert AgreeOn(p, q, n);
      if n in p {
        forall j: nat | j < k - 1
          ensures Up(p, p[n].list, j) != Some(x)
        {
          assert Up(p, n, j + 1) == Up(p, p[n].list, j);
        }
        UpAvoiding(p, q, x, p[n].list, k - 1);
      }
    }
  }

  /** The first step at which a chain meets `x`. */
  lemma {:induction false} FirstMeeting(p: map<string, PosKey>, x: string, n: string, k: nat) returns (j: nat)
    requires Up(p, n, k) == Some(x)
    ensures j <= k && Up(p, n, j) == Some(x) && forall i: nat :: i < j ==> Up(p, n, i) != Some(x)
    decreases k
  {
    if i: nat :| i < k && Up(p, n, i) == Some(x) {
      j := FirstMeeting(p, x, n, i);
    } else {
      j := k;
    }
  }

  /** A chain that ends does so within the number of placed nodes. */
  lemma {:induction false} EndsWithinSize(pos: map<string, PosKey>, n: string)
    requires Grounded(pos, n)
    ensures Up(pos, n, |pos| + 1) == None
    decreases |pos|
  {
    if n in pos {
      var rest := pos - {n};
      assert rest.Keys == pos.Keys - {n};
      var k: nat :| EndsAfter(pos, n, k);
      var parent := pos[n].list;
      forall j: nat
        ensures Up(pos, parent, j) != Some(n)
      {
        assert Up(pos, parent, j) == Some(n) ==> Above(pos, n, n, j + 1);
        NotOwnAncestor(pos, n);
      }
      UpAvoiding(pos, rest, n, parent, k - 1);
      assert EndsAfter(rest, parent, k - 1);
      EndsWithinSize(rest, parent);
      UpAvoiding(pos, rest, n, parent, |rest| + 1);
    }
  }

  // ---- One move ----

  /** `doMove`: put the node at the given position, unless it is above that position. */
  ghost function MoveTo(l: Links, node: string, key: PosKey): Links
  {
    if Ancestor(l.pos, node, key.list) then l.(alive := l.alive - {key})
    else
      var rest := if node in l.pos then l.alive - {l.pos[node]} else l.alive;
      Links(l.pos[node := key], rest[key := node])
  }

  /** Placing a node somewhere that is neither itself nor below it keeps the tree acyclic. */
  lemma {:induction false} PlaceKeepsAcyclic(l: Links, node: string, key: PosKey)
    requires Acyclic(l.pos) && node != key.list
    ensures Acyclic(MoveTo(l, node, key).pos)
  {
    var p, q := l.pos, MoveTo(l, node, key).pos;
    if !Ancestor(p, node, key.list) {
      forall n
        ensures Grounded(q, n)
      {
        assert forall m :: m != node ==> AgreeOn(p, q, m);
        assert Grounded(p, key.list) && Grounded(p, n);
        EndsFromTarget(p, q, node, key.list);
        var k: nat :| EndsAfter(p, n, k);
        if j: nat :| j < k && Up(p, n, j) == Some(node) {
          var first := FirstMeeting(p, node, n, j);
          UpAvoiding(p, q, node, n, first);
          var e: nat :| EndsAfter(q, key.list, e);
          UpCompose(q, n, first, e + 1);
          assert EndsAfter(q, n, first + (e + 1));
        } else {
          UpAvoiding(p, q, node, n, k);
          assert EndsAfter(q, n, k);
        }
      }
    }
  }

  /** The chain above the new parent does not meet the moved node, so it is as before. */
  lemma {:induction false} EndsFromTarget(p: map<string, PosKey>, q: map<string, PosKey>, node: string, target: string)
    requires Grounded(p, target) && node != target && !Ancestor(p, node, target)
    requires forall m :: m != node ==> AgreeOn(p, q, m)
    ensures Grounded(q, target)
  {
    var k: nat :| EndsAfter(p, target, k);
    forall j: nat | j < k
      ensures Up(p, target, j) != Some(node)
    {
      assert j > 0 && Up(p, target, j) == Some(node) ==> Above(p, node, target, j);
    }
    UpAvoiding(p, q, node, target, k);
    assert EndsAfter(q, target, k);
  }

  /** A position is alive exactly when it is its node's current position. */
  ghost predicate AliveIsCurrent(l: Links)
  {
    && (forall k :: k in l.alive ==> l.alive[k] in l.pos && l.pos[l.alive[k]] == k)
    && (forall n :: n in l.pos ==> l.pos[n] in l.alive && l.alive[l.pos[n]] == n)
  }

  lemma {:induction false} PlaceKeepsAlive(l: Links, node: string, key: PosKey)
    requires AliveIsCurrent(l) && key !in l.alive
    ensures AliveIsCurrent(MoveTo(l, node, key))
  {
    assert l.alive - {key} == l.alive;
  }

  // ---- A whole log ----

  ghost function Replay(ops: seq<Move>): Links
  {
    if ops == [] then Links(map[], map[])
    else MoveTo(Replay(ops[..|ops| - 1]), ops[|ops| - 1].node, ops[|ops| - 1].Key())
  }

  /** Identifiers strictly increase along the log. */
  ghost predicate Ordered(ops: seq<Move>)
  {
    forall i, j :: 0 <= i < j < |ops| ==> Precedes(ops, i, j)
  }

  ghost predicate Precedes(ops: seq<Move>, i: nat, j: nat)
    requires i < |ops| && j < |ops|
  {
    ops[i].id.Less(ops[j].id)
  }

  lemma {:induction false} OrderedPrefix(ops: seq<Move>, n: nat)
    requires Ordered(ops) && NotUnderItself(ops) && n <= |ops|
    ensures Ordered(ops[..n]) && NotUnderItself(ops[..n])
  {
    forall i, j | 0 <= i < j < n
      ensures Precedes(ops[..n], i, j)
    {
      assert Precedes(ops, i, j);
    }
  }

  ghost predicate NotUnderItself(ops: seq<Move>)
  {
    forall i :: 0 <= i < |ops| ==> ops[i].node != ops[i].parent
  }

  lemma {:induction false} OrderedIds(ops: seq<Move>, i: nat, j: nat)
    requires Ordered(ops) && i < |ops| && j < |ops| && ops[i].id == ops[j].id
    ensures i == j
  {
    IdTrichotomy(ops[i].id, ops[j].id);
    assert i < j ==> Precedes(ops, i, j);
    assert j < i ==> Precedes(ops, j, i);
  }

  /** Every alive position is the position of some move of the log. */
  lemma {:induction false} AliveFromLog(ops: seq<Move>, key: PosKey)
    requires key in Replay(ops).alive
    ensures exists i :: 0 <= i < |ops| && ops[i].Key() == key && ops[i].node == Replay(ops).alive[key]
  {
    var n := |ops| - 1;
    if ops[n].Key() != key || ops[n].node != Replay(ops).alive[key] {
      AliveFromLog(ops[..n], key);
      var i :| 0 <= i < n && ops[..n][i].Key() == key && ops[..n][i].node == Replay(ops[..n]).alive[key];
      assert ops[i].Key() == key;
    }
  }

  lemma {:induction false} NewKeyIsDead(ops: seq<Move>, n: nat)
    requires Ordered(ops) && n < |ops|
    ensures ops[n].Key() !in Replay(ops[..n]).alive
  {
    if ops[n].Key() in Replay(ops[..n]).alive {
      AliveFromLog(ops[..n], ops[n].Key());
      var i :| 0 <= i < n && ops[..n][i].Key() == ops[n].Key();
      OrderedIds(ops, i, n);
      assert false;
    }
  }

  /** In every log in identifier order, the tree has no cycle and a position is alive exactly
      when it is its node's current position. */
  lemma {:induction false} ReplayInvariant(ops: seq<Move>)
    requires Ordered(ops) && NotUnderItself(ops)
    ensures Acyclic(Replay(ops).pos) && AliveIsCurrent(Replay(ops))
  {
    if ops == [] {
      forall n
        ensures Grounded(Replay([]).pos, n)
      {
        assert EndsAfter(Replay([]).pos, n, 1);
      }
    } else {
      var n := |ops| - 1;
      OrderedPrefix(ops, n);
      ReplayInvariant(ops[..n]);
      NewKeyIsDead(ops, n);
      PlaceKeepsAcyclic(Replay(ops[..n]), ops[n].node, ops[n].Key());
      PlaceKeepsAlive(Replay(ops[..n]), ops[n].node, ops[n].Key());
    }
  }

  /** From every node the parents lead, within the number of placed nodes, to a node without
      a position, and no node is its own ancestor. */
  lemma {:induction false} NoCycles(ops: seq<Move>, n: string)
    requires Ordered(ops) && NotUnderItself(ops)
    ensures Up(Replay(ops).pos, n, |Replay(ops).pos| + 1) == None
    ensures !Ancestor(Replay(ops).pos, n, n)
  {
    ReplayInvariant(ops);
    EndsWithinSize(Replay(ops).pos, n);
    NotOwnAncestor(Replay(ops).pos, n);
  }

  /** A move that would close a cycle leaves every node where it was. */
  lemma {:induction false} CyclicMoveIsSkipped(ops: seq<Move>, m: Move)
    requires Ordered(ops + [m]) && NotUnderItself(ops + [m])
    ensures Replay(ops + [m]).pos == Replay(ops).pos <==>
            Ancestor(Replay(ops).pos, m.node, m.parent)
    ensures Ancestor(Replay(ops).pos, m.node, m.parent) ==> Replay(ops + [m]) == Replay(ops)
  {
    var all := ops + [m];
    assert all[..|ops|] == ops && all[|ops|] == m;
    NewKeyIsDead(all, |ops|);
    OrderedPrefix(all, |ops|);
    ReplayInvariant(ops);
    assert Replay(ops).alive - {m.Key()} == Replay(ops).alive;
    if !Ancestor(Replay(ops).pos, m.node, m.parent) {
      assert Replay(all).pos[m.node] == m.Key();
      if m.node in Replay(ops).pos {
        assert Replay(ops).pos[m.node] in Replay(ops).alive;
      }
    }
  }
}

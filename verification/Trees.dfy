/** The tree CRDT (backend/crdt/tree.go). Positions are named by list and identifier instead
    of being pointed to; the lists hold the sequences of module `Rga`. */
module Trees {
  import opened Crdt
  import opened Options
  import opened Rga
  import opened MoveTree
  import opened LateMove
  import opened TreeCalls
  import opened TreeShape
  import opened TreeSteps

  ghost function PosOf(nodes: map<string, Option<PosKey>>): map<string, PosKey>
  {
    map n | n in nodes && nodes[n].Some? :: nodes[n].value
  }

  function Target(parentID: string): string
  {
    if parentID == "" then ROOT else parentID
  }

  class Tree {
    var nodes: map<string, Option<PosKey>>
    var children: map<string, seq<Atom>>
    var alive: map<PosKey, string>
    var movesLog: seq<Record>
    const vclock: VectorClock

    ghost function Held(): Links
      reads this
    {
      Links(PosOf(nodes), alive)
    }

    ghost function Now(): State
      reads this, vclock
    {
      State(nodes.Keys, children, Held(), movesLog, vclock.lastSeen)
    }

    ghost predicate Valid()
      reads this, vclock
    {
      vclock.Valid() && Present(nodes.Keys, children.Keys, MovesOf(movesLog))
    }

    constructor (vclock: VectorClock)
      requires vclock.Valid()
      ensures Valid() && this.vclock == vclock && Now() == Start(vclock.lastSeen)
      ensures Faithful(Now()) && Shaped(Now())
    {
      this.vclock := vclock;
      nodes := map[ROOT := None, TRASH := None];
      children := map[ROOT := [], TRASH := []];
      alive := map[];
      movesLog := [];
      new;
      assert PosOf(nodes) == map[];
      assert MovesOf(movesLog) == [];
      StartIsShaped(vclock.lastSeen);
    }

    /** Decides the proper ancestor relation, and terminates whenever the ancestor or the top is reached. */
    method IsAncestor(a: string, b: string) returns (r: bool)
      requires Decided(PosOf(nodes), a, b)
      ensures r <==> Ancestor(PosOf(nodes), a, b)
    {
      ghost var pos := PosOf(nodes);
      ghost var bound := SearchBound(pos, a, b);
      ghost var k: nat := 0;
      var c := b;
      while true
        invariant k < bound && Up(pos, b, k) == Some(c)
        invariant forall j: nat :: j <= k ==> !Above(pos, a, b, j)
        decreases bound - k
      {
        UpCompose(pos, b, k, 1);
        if c !in nodes || nodes[c] == None {
          forall j: nat
            ensures !Above(pos, a, b, j)
          {
            if j > k {
              UpCompose(pos, b, k + 1, j - (k + 1));
            }
          }
          return false;
        }
        if nodes[c].value.list == a {
          assert Above(pos, a, b, k + 1);
          return true;
        }
        c := nodes[c].value.list;
        k := k + 1;
      }
    }

    method DoMove(node: string, key: PosKey)
      requires node in nodes && Decided(PosOf(nodes), node, key.list)
      modifies this`nodes, this`alive
      ensures Held() == MoveTo(old(Held()), node, key)
      ensures nodes.Keys == old(nodes.Keys)
    {
      var above := IsAncestor(node, key.list);
      if above {
        alive := alive - {key};
        return;
      }
      if nodes[node] != None {
        alive := alive - {nodes[node].value};
      }
      nodes := nodes[node := Some(key)];
      alive := alive[key := node];
      assert PosOf(nodes) == old(PosOf(nodes))[node := key];
    }

    method UndoMove(op: Record)
      requires op.move.node in nodes
      modifies this`nodes, this`alive
      ensures Held() == Undo(old(Held()), op.move.node, op.oldPosition)
      ensures nodes.Keys == old(nodes.Keys)
    {
      var node := op.move.node;
      if nodes[node] != None {
        alive := alive - {nodes[node].value};
      }
      if op.oldPosition != None {
        alive := alive[op.oldPosition.value := node];
        nodes := nodes[node := op.oldPosition];
        assert PosOf(nodes) == old(PosOf(nodes))[node := op.oldPosition.value];
      }
    }

    /** Only the undo record of a move that goes through is refreshed. */
    method RedoMove(op: Record, idx: nat)
      requires idx < |movesLog| && movesLog[idx] == op
      requires op.move.node in nodes && Decided(PosOf(nodes), op.move.node, op.move.parent)
      modifies this`nodes, this`alive, this`movesLog
      ensures Held() == MoveTo(old(Held()), op.move.node, op.move.Key())
      ensures nodes.Keys == old(nodes.Keys)
      ensures movesLog == old(movesLog)[idx := Refreshed(old(Held()), op)]
    {
      var node, key := op.move.node, op.move.Key();
      var above := IsAncestor(node, key.list);
      if above {
        alive := alive - {key};
        return;
      }
      if nodes[node] != None {
        alive := alive - {nodes[node].value};
      }
      movesLog := movesLog[idx := op.(oldPosition := nodes[node])];
      nodes := nodes[node := Some(key)];
      alive := alive[key := node];
      assert PosOf(nodes) == old(PosOf(nodes))[node := key];
    }

    // ---- Integrating a move ----

    /** The first alive position at or behind an index of a list. */
    method NextAlive(list: string, from: nat) returns (r: Option<PosKey>)
      requires list in children && from <= |children[list]|
      ensures r == AliveBehind(children[list], list, alive, from)
    {
      var s := children[list];
      var k := from;
      while k < |s| && PosKey(list, s[k].id) !in alive
        invariant from <= k <= |s| && FirstAlive(s, list, alive, k) == FirstAlive(s, list, alive, from)
      {
        k := k + 1;
      }
      r := if k < |s| then Some(PosKey(list, s[k].id)) else None;
    }

    /** Undoes, newest first, every move that is not smaller than the identifier. */
    method UndoNewer(id: ID) returns (dest: nat)
      requires NodesKnown(nodes.Keys, MovesOf(movesLog))
      modifies this`nodes, this`alive
      ensures dest == Dest(MovesOf(movesLog), id)
      ensures Held() == UndoneFrom(old(Held()), movesLog, dest) && nodes.Keys == old(nodes.Keys)
    {
      ghost var ops := MovesOf(movesLog);
      assert ops[..|ops|] == ops;
      dest := 0;
      var i := |movesLog|;
      while i > 0
        invariant 0 <= i <= |ops| && Dest(ops, id) == Dest(ops[..i], id)
        invariant dest == 0 && nodes.Keys == old(nodes.Keys)
        invariant Held() == UndoneFrom(old(Held()), movesLog, i)
      {
        var op := movesLog[i - 1];
        DestStep(ops, i, id);
        if op.move.id.Less(id) {
          dest := i;
          break;
        }
        assert op.move == ops[i - 1];
        UndoMove(op);
        i := i - 1;
      }
    }

    /** Redoes every move behind the new one, and refreshes the records of those that go through. */
    method RedoNewer(dest: nat, ghost s: State, ghost m: Move)
      requires dest == DestOf(s, m) && movesLog == Filed(s, m) && WalksEnd(s, m)
      requires NodesKnown(nodes.Keys, MovesOf(movesLog)) && Held() == LinksAt(s, m, dest + 1)
      modifies this`nodes, this`alive, this`movesLog
      ensures Held() == LinksAt(s, m, |s.log| + 1) && movesLog == LogAt(s, m, |s.log| + 1)
      ensures nodes.Keys == old(nodes.Keys)
    {
      ghost var n := |s.log| + 1;
      assert LogAt(s, m, dest + 1) == Filed(s, m);
      for i := dest + 1 to |movesLog|
        invariant |movesLog| == n && nodes.Keys == old(nodes.Keys)
        invariant Held() == LinksAt(s, m, i) && movesLog == LogAt(s, m, i)
      {
        RedoReady(s, m, nodes.Keys, i);
        RedoMove(movesLog[i], i);
        LogStep(s, m, i);
      }
    }

    /** Files the move in the log and links the node, undoing and redoing the moves that are not
        smaller if there are any. The new position is in its list already, and alive. */
    method Apply(newOp: Record, ghost s: State)
      requires movesLog == s.log && NodesKnown(nodes.Keys, MovesOf(movesLog)) && newOp.move.node in nodes
      requires newOp == Record(newOp.move, PositionIn(s.links.pos, newOp.move.node))
      requires Held() == Positioned(s, newOp.move) && WalksEnd(s, newOp.move)
      modifies this`nodes, this`alive, this`movesLog
      ensures Held() == LinksAt(s, newOp.move, |s.log| + 1)
      ensures movesLog == LogAt(s, newOp.move, |s.log| + 1) && nodes.Keys == old(nodes.Keys)
    {
      var m := newOp.move;
      if |movesLog| == 0 || movesLog[|movesLog| - 1].move.id.Less(m.id) {
        NewestIsLast(s, m);
        assert WalkEnds(s, m, |s.log|);
        movesLog := movesLog + [newOp];
        DoMove(m.node, m.Key());
        return;
      }
      var dest := UndoNewer(m.id);
      FileLate(newOp, dest, s);
      RedoNewer(dest, s, m);
    }

    /** Inserts the late move into the log and does it. */
    method FileLate(newOp: Record, dest: nat, ghost s: State)
      requires movesLog == s.log && NodesKnown(nodes.Keys, MovesOf(movesLog)) && newOp.move.node in nodes
      requires newOp == Record(newOp.move, PositionIn(s.links.pos, newOp.move.node))
      requires dest == DestOf(s, newOp.move) && Held() == UndoneFor(s, newOp.move) && WalksEnd(s, newOp.move)
      modifies this`nodes, this`alive, this`movesLog
      ensures movesLog == Filed(s, newOp.move) && Held() == LinksAt(s, newOp.move, dest + 1)
      ensures nodes.Keys == old(nodes.Keys) && NodesKnown(nodes.Keys, MovesOf(movesLog))
    {
      var m := newOp.move;
      movesLog := movesLog[..dest] + [newOp] + movesLog[dest..];
      FiledMoves(s, m);
      assert WalkEnds(s, m, dest) && MovesOf(Filed(s, m))[dest] == m;
      DoMove(m.node, m.Key());
    }

    /** Integrates a move, unless a search for an ancestor would go on for ever: takes exactly the moves that are
        acceptable, and names the first thing that is the matter with others. In order, or late without harm, the
        tree stays what replaying all its moves in identifier order leads to. */
    method Integrate(id: ID, nodeID: string, parentID: string, ref: ID) returns (status: Status)
      requires Valid()
      requires
        var m := Move(id, nodeID, Target(parentID), ref);
        VerdictOf(Now(), m) == Moved ==> WalksEnd(Now(), m)
      modifies this, vclock
      ensures Valid()
      ensures
        var m := Move(id, nodeID, if parentID == "" then ROOT else parentID, ref);
        && Answers(status, old(Now()), m) && (status == Moved <==> Accepts(old(Now()), m))
        && if status == Moved then Takes(old(Now()), Now(), m) else Refuses(old(Now()), Now(), m, status)
      ensures
        var m := Move(id, nodeID, Target(parentID), ref);
        && status == VerdictOf(old(Now()), m) && Now() == After(old(Now()), m)
        && (Shaped(old(Now())) ==> Shaped(Now()))
        && (Faithful(old(Now())) && (status == Moved ==> Handled(old(Now()), m)) ==>
              && Faithful(Now())
              && (status == Moved ==> MovesOf(movesLog) == Merged(MovesOf(old(movesLog)), DestOf(old(Now()), m), m)))
    {
      ghost var s := Now();
      var parent := Target(parentID);
      ghost var m := Move(id, nodeID, parent, ref);
      status := IntegrateUnder(Move(id, nodeID, parent, ref));
      VerdictMeans(s, m);
      CallMeans(s, m);
      if Shaped(s) {
        StaysShaped(s, m);
      }
      if Faithful(s) && (status == Moved ==> Handled(s, m)) {
        StaysFaithful(s, m);
      }
    }

    method IntegrateUnder(m: Move) returns (status: Status)
      requires Valid() && (VerdictOf(Now(), m) == Moved ==> WalksEnd(Now(), m))
      modifies this, vclock
      ensures Valid() && status == VerdictOf(old(Now()), m) && Now() == After(old(Now()), m)
    {
      if m.node == "" {
        return EmptyNode;
      }
      if m.node == m.parent {
        return UnderItself;
      }
      if m.parent !in nodes {
        return NoParent;
      }
      ghost var s := Now();
      FindSubtree(m.parent);
      var from := Behind(children[m.parent], m.ref);
      if from == None {
        return NoRef;
      }
      var next := NextAlive(m.parent, from.value);
      if next.Some? && alive[next.value] == m.node {
        return AlreadyThere;
      }
      status := Admit(m, s);
    }

    /** The rest of `Integrate`, once the move is known to be needed. */
    method Admit(m: Move, ghost s: State) returns (status: Status)
      requires Valid() && Now() == WithList(s, m.parent) && m.parent in s.nodes
      requires VerdictOf(s, m).OutOfDate? || VerdictOf(s, m).Duplicate? || VerdictOf(s, m).Moved?
      requires VerdictOf(s, m) == Moved ==> WalksEnd(s, m)
      modifies this, vclock
      ensures Valid() && status == VerdictOf(s, m) && Now() == After(s, m)
    {
      var ok := vclock.Track(m.id);
      AddNode(m.node);
      if !ok {
        return OutOfDate;
      }
      if IsRoot(m.id) || LastBehind(children[m.parent], m.id).Some? {
        return Duplicate;
      }
      Commit(m, s);
      return Moved;
    }

    method AddNode(id: string)
      modifies this`nodes
      ensures nodes.Keys == old(nodes.Keys) + {id} && PosOf(nodes) == old(PosOf(nodes))
    {
      if id !in nodes {
        nodes := nodes[id := None];
        assert PosOf(nodes) == old(PosOf(nodes));
      }
    }

    /** Makes the new position and moves the node there. */
    method Commit(m: Move, ghost s: State)
      requires Valid() && m.parent in s.nodes && VerdictOf(s, m) == Moved && WalksEnd(s, m)
      requires Now() == WithNode(s, m).(seen := s.seen[m.id.origin := m.id])
      modifies this
      ensures Valid() && Now() == Integrated(s, m)
    {
      var newOp := Record(m, nodes[m.node]);
      StaysPresent(s, m);
      MakePosition(m, s);
      Apply(newOp, s);
      assert Now() == Integrated(s, m);
    }

    method MakePosition(m: Move, ghost s: State)
      requires children == WithList(s, m.parent).children && Held() == s.links
      modifies this`children, this`alive
      ensures children == Integrated(s, m).children && Held() == Positioned(s, m)
    {
      children := children[m.parent := Insert(children[m.parent], Atom(m.id, m.ref))];
      alive := alive[m.Key() := m.node];
    }

    /** Gives a node its list of children the first time it is needed. */
    method FindSubtree(id: string)
      requires Valid() && id in nodes
      modifies this`children
      ensures Valid() && Now() == WithList(old(Now()), id)
    {
      if id !in children {
        children := children[id := []];
      }
    }
  }

  /** A search is over after so many steps. */
  lemma {:induction false} SearchBound(pos: map<string, PosKey>, a: string, b: string) returns (bound: nat)
    requires Decided(pos, a, b)
    ensures bound > 0 && (Above(pos, a, b, bound) || EndsAfter(pos, b, bound))
  {
    if Ancestor(pos, a, b) {
      bound :| Above(pos, a, b, bound);
    } else {
      bound :| EndsAfter(pos, b, bound);
    }
  }

  lemma {:induction false} RedoReady(s: State, m: Move, nodes: set<string>, i: nat)
    requires DestOf(s, m) < i <= |s.log| && WalksEnd(s, m) && NodesKnown(nodes, MovesOf(Filed(s, m)))
    ensures LogAt(s, m, i)[i] == Filed(s, m)[i] && Filed(s, m)[i].move.node in nodes
    ensures Decided(LinksAt(s, m, i).pos, Filed(s, m)[i].move.node, Filed(s, m)[i].move.parent)
    ensures LinksAt(s, m, i + 1) == MoveTo(LinksAt(s, m, i), Filed(s, m)[i].move.node, Filed(s, m)[i].move.Key())
  {
    assert WalkEnds(s, m, i) && MovesOf(Filed(s, m))[i] == Filed(s, m)[i].move;
  }

  lemma {:induction false} LogStep(s: State, m: Move, i: nat)
    requires DestOf(s, m) < i <= |s.log|
    ensures LogAt(s, m, i + 1) == LogAt(s, m, i)[i := Refreshed(LinksAt(s, m, i), Filed(s, m)[i])]
  {
  }
}

/** Whole runs of a tree (backend/crdt/tree.go): moves in order with a late one at the end, nodes
    created in any order, and two trees that got the same moves. */
module TreeRuns {
  import opened Crdt
  import opened MoveTree
  import opened LateMove
  import opened Siblings
  import opened TreeSteps
  import opened Trees

  ghost function RunOf(s: State, ms: seq<Move>): State
  {
    if ms == [] then s else After(RunOf(s, ms[..|ms| - 1]), ms[|ms| - 1])
  }

  lemma {:induction false} RunSnoc(s: State, ms: seq<Move>, i: nat)
    requires i < |ms|
    ensures RunOf(s, ms[..i + 1]) == After(RunOf(s, ms[..i]), ms[i])
  {
    assert ms[..i + 1][..i] == ms[..i];
  }

  ghost predicate HasMove(ops: seq<Move>, m: Move)
  {
    exists i :: 0 <= i < |ops| && ops[i] == m
  }

  // ---- The same moves ----

  ghost predicate SameMoves(u: seq<Move>, v: seq<Move>)
  {
    forall m :: HasMove(u, m) <==> HasMove(v, m)
  }

  lemma {:induction false} LastIsGreatest(ops: seq<Move>, m: Move)
    requires Ordered(ops) && HasMove(ops, m)
    ensures m == ops[|ops| - 1] || m.id.Less(ops[|ops| - 1].id)
  {
    var i :| 0 <= i < |ops| && ops[i] == m;
    assert i < |ops| - 1 ==> Precedes(ops, i, |ops| - 1);
  }

  lemma {:induction false} WithoutLast(ops: seq<Move>, m: Move)
    requires Ordered(ops) && ops != []
    ensures HasMove(ops[..|ops| - 1], m) <==> HasMove(ops, m) && m != ops[|ops| - 1]
  {
    var init := ops[..|ops| - 1];
    if HasMove(init, m) {
      var i :| 0 <= i < |init| && init[i] == m;
      assert ops[i] == m && Precedes(ops, i, |ops| - 1);
      IdTrichotomy(m.id, ops[|ops| - 1].id);
    }
    if HasMove(ops, m) && m != ops[|ops| - 1] {
      var i :| 0 <= i < |ops| && ops[i] == m;
      assert init[i] == m;
    }
  }

  /** A log in identifier order is determined by its moves. */
  lemma {:induction false} OrderIsUnique(u: seq<Move>, v: seq<Move>)
    requires Ordered(u) && Ordered(v) && NotUnderItself(u) && NotUnderItself(v) && SameMoves(u, v)
    ensures u == v
    decreases |u|
  {
    if u == [] || v == [] {
      assert u != [] ==> HasMove(u, u[0]);
      assert v != [] ==> HasMove(v, v[0]);
    } else {
      var i, j := |u| - 1, |v| - 1;
      assert HasMove(u, u[i]) && HasMove(v, v[j]);
      LastIsGreatest(u, v[j]);
      LastIsGreatest(v, u[i]);
      IdTrichotomy(u[i].id, v[j].id);
      OrderedPrefix(u, i);
      OrderedPrefix(v, j);
      forall m
        ensures HasMove(u[..i], m) <==> HasMove(v[..j], m)
      {
        WithoutLast(u, m);
        WithoutLast(v, m);
      }
      OrderIsUnique(u[..i], v[..j]);
    }
  }

  /** Trees that hold the same moves, whatever order these arrived in, have the same nodes at the
      same places and the same order of siblings, alive or not. */
  lemma {:induction false} TreesConverge(s: State, t: State)
    requires Faithful(s) && Faithful(t) && SameMoves(MovesOf(s.log), MovesOf(t.log))
    ensures s.links == t.links
    ensures forall p :: SiblingsOf(s.children, p) == SiblingsOf(t.children, p)
  {
    OrderIsUnique(MovesOf(s.log), MovesOf(t.log));
    forall p
      ensures SiblingsOf(s.children, p) == SiblingsOf(t.children, p)
    {
      assert ListFollows(SiblingsOf(s.children, p), AtomsOf(MovesOf(s.log), p));
      assert ListFollows(SiblingsOf(t.children, p), AtomsOf(MovesOf(t.log), p));
    }
  }

  // ---- Moves in order, and then a late one ----

  /** An undo record holds the position its node had when the moves before it were replayed. */
  ghost predicate Accurate(log: seq<Record>, i: nat)
    requires i < |log|
  {
    log[i].oldPosition == PositionIn(Replay(MovesOf(log)[..i]).pos, log[i].move.node)
  }

  ghost predicate AllAccurate(log: seq<Record>)
  {
    forall i :: 0 <= i < |log| ==> Accurate(log, i)
  }

  /** The log holds only moves of the run. */
  ghost predicate LogFrom(log: seq<Record>, ms: seq<Move>)
  {
    forall i :: 0 <= i < |log| ==> HasMove(ms, log[i].move)
  }

  lemma {:induction false} AccurateSnoc(log: seq<Record>, rec: Record)
    requires AllAccurate(log) && rec.oldPosition == PositionIn(Replay(MovesOf(log)).pos, rec.move.node)
    ensures AllAccurate(log + [rec])
  {
    var grown := log + [rec];
    forall i | 0 <= i < |grown|
      ensures Accurate(grown, i)
    {
      if i < |log| {
        assert Accurate(log, i) && MovesOf(grown)[..i] == MovesOf(log)[..i];
      } else {
        assert MovesOf(grown)[..i] == MovesOf(log);
      }
    }
  }

  lemma {:induction false} NewestIsAccurate(s: State, m: Move)
    requires Faithful(s) && AllAccurate(s.log) && Newest(s.log, m.id)
    ensures AllAccurate(LogAt(s, m, |s.log| + 1))
  {
    NewestIsLast(s, m);
    AccurateSnoc(s.log, Record(m, PositionIn(s.links.pos, m.node)));
  }

  lemma {:induction false} InOrderStep(s: State, m: Move)
    requires Faithful(s) && AllAccurate(s.log) && Newest(s.log, m.id)
    ensures Faithful(After(s, m)) && AllAccurate(After(s, m).log)
    ensures VerdictOf(s, m) == Moved ==>
      WalksEnd(s, m) && MovesOf(After(s, m).log) == Merged(MovesOf(s.log), DestOf(s, m), m)
    ensures VerdictOf(s, m) != Moved ==> After(s, m).log == s.log
  {
    StaysFaithful(s, m);
    if VerdictOf(s, m) == Moved {
      NewestIsAccurate(s, m);
    }
  }

  ghost predicate InOrderSoFar(s: State, ms: seq<Move>)
  {
    Faithful(s) && AllAccurate(s.log) && LogFrom(s.log, ms)
  }

  lemma {:induction false} NextIsNewest(s: State, ms: seq<Move>, i: nat)
    requires Ordered(ms) && i < |ms| && LogFrom(s.log, ms[..i])
    ensures Newest(s.log, ms[i].id)
  {
    if s.log != [] {
      assert HasMove(ms[..i], s.log[|s.log| - 1].move);
      var j :| 0 <= j < i && ms[..i][j] == s.log[|s.log| - 1].move;
      assert Precedes(ms, j, i);
    }
  }

  lemma {:induction false} FromMerged(s: State, s': State, ms: seq<Move>, i: nat, dest: nat)
    requires i < |ms| && LogFrom(s.log, ms[..i]) && dest <= |s.log|
    requires MovesOf(s'.log) == Merged(MovesOf(s.log), dest, ms[i])
    ensures LogFrom(s'.log, ms[..i + 1])
  {
    forall j | 0 <= j < |s'.log|
      ensures HasMove(ms[..i + 1], s'.log[j].move)
    {
      if j == dest {
        assert ms[..i + 1][i] == MovesOf(s'.log)[j];
      } else {
        var j' := if j < dest then j else j - 1;
        assert MovesOf(s'.log)[j] == s.log[j'].move && HasMove(ms[..i], s.log[j'].move);
        var k :| 0 <= k < i && ms[..i][k] == s.log[j'].move;
        assert ms[..i + 1][k] == s'.log[j].move;
      }
    }
  }

  lemma {:induction false} LogFromLonger(log: seq<Record>, ms: seq<Move>, i: nat)
    requires i < |ms| && LogFrom(log, ms[..i])
    ensures LogFrom(log, ms[..i + 1])
  {
    forall j | 0 <= j < |log|
      ensures HasMove(ms[..i + 1], log[j].move)
    {
      assert HasMove(ms[..i], log[j].move);
      var k :| 0 <= k < i && ms[..i][k] == log[j].move;
      assert ms[..i + 1][k] == log[j].move;
    }
  }

  lemma {:induction false} StaysInOrder(s: State, s': State, ms: seq<Move>, i: nat)
    requires Ordered(ms) && i < |ms| && InOrderSoFar(s, ms[..i]) && s' == After(s, ms[i])
    ensures Handled(s, ms[i]) && Ends(s, ms[i]) && InOrderSoFar(s', ms[..i + 1])
  {
    NextIsNewest(s, ms, i);
    InOrderStep(s, ms[i]);
    if VerdictOf(s, ms[i]) == Moved {
      FromMerged(s, s', ms, i, DestOf(s, ms[i]));
    } else {
      LogFromLonger(s.log, ms, i);
    }
  }

  /** No walk up the tree goes on for ever. */
  ghost predicate Ends(s: State, m: Move)
  {
    VerdictOf(s, m) == Moved ==> WalksEnd(s, m)
  }

  lemma {:induction false} StartIsInOrder(seen: map<string, ID>)
    ensures InOrderSoFar(Start(seen), [])
  {
    forall p
      ensures ListFollows(SiblingsOf(Start(seen).children, p), AtomsOf([], p))
    {
    }
  }

  /** After any moves that arrive in order every record is accurate, and one late move, wherever it
      belongs, can be handled. */
  lemma {:induction false} AnyOneLateMove(s: State, ms: seq<Move>, late: Move)
    requires InOrderSoFar(s, ms) && Ready(MovesOf(s.log), late)
    ensures Ends(s, late) && (VerdictOf(s, late) == Moved ==> Handled(s, late))
    ensures Faithful(After(s, late))
    ensures VerdictOf(s, late) == Moved ==>
      MovesOf(After(s, late).log) == Merged(MovesOf(s.log), DestOf(s, late), late)
  {
    forall i | DestOf(s, late) <= i < |s.log|
      ensures s.log[i].oldPosition == PositionIn(Replay(MovesOf(s.log)[..i]).pos, MovesOf(s.log)[i].node)
    {
      assert Accurate(s.log, i);
    }
    AccurateIsOk(s.log, MovesOf(s.log), DestOf(s, late));
    if VerdictOf(s, late) == Moved {
      GoodRecordsAreHandled(s, late);
    }
    StaysFaithful(s, late);
  }

  lemma {:induction false} LogGrows(s: State, ms: seq<Move>, i: nat)
    requires Ordered(ms) && i < |ms| && LogFrom(s.log, ms[..i])
    requires MovesOf(s.log) == ms[..i] && VerdictOf(s, ms[i]) == Moved
    ensures MovesOf(After(s, ms[i]).log) == ms[..i + 1]
  {
    NextIsNewest(s, ms, i);
    NewestIsLast(s, ms[i]);
    LogMoves(s, ms[i], |s.log| + 1);
  }

  ghost predicate MovedInRun(start: State, ms: seq<Move>, i: nat)
    requires i < |ms|
  {
    VerdictOf(RunOf(start, ms[..i]), ms[i]) == Moved
  }

  /** Moves in order that all go through the checks make up the log. */
  lemma {:induction false} InOrderLog(seen: map<string, ID>, ms: seq<Move>, n: nat)
    requires Ordered(ms) && n <= |ms|
    requires forall i :: 0 <= i < n ==> MovedInRun(Start(seen), ms, i)
    ensures InOrderSoFar(RunOf(Start(seen), ms[..n]), ms[..n])
    ensures MovesOf(RunOf(Start(seen), ms[..n]).log) == ms[..n]
    decreases n
  {
    if n == 0 {
      StartIsInOrder(seen);
    } else {
      var i := n - 1;
      var s := RunOf(Start(seen), ms[..i]);
      InOrderLog(seen, ms, i);
      assert MovedInRun(Start(seen), ms, i);
      RunSnoc(Start(seen), ms, i);
      StaysInOrder(s, After(s, ms[i]), ms, i);
      LogGrows(s, ms, i);
    }
  }

  /** The verdicts on the moves of a run. */
  ghost function VerdictsOf(s: State, ms: seq<Move>): (vs: seq<Status>)
    ensures |vs| == |ms|
  {
    if ms == [] then []
    else VerdictsOf(s, ms[..|ms| - 1]) + [VerdictOf(RunOf(s, ms[..|ms| - 1]), ms[|ms| - 1])]
  }

  lemma {:induction false} VerdictsSnoc(s: State, ms: seq<Move>, i: nat)
    requires i < |ms|
    ensures VerdictsOf(s, ms[..i + 1]) == VerdictsOf(s, ms[..i]) + [VerdictOf(RunOf(s, ms[..i]), ms[i])]
  {
    assert ms[..i + 1][..i] == ms[..i];
  }

  /** The tree is valid and in the given state. */
  ghost predicate Shows(tree: Tree, s: State)
    reads tree, tree.vclock
  {
    tree.Valid() && tree.Now() == s
  }

  method DeliverInOrder(ms: seq<Move>) returns (tree: Tree, statuses: seq<Status>)
    requires Ordered(ms) && forall i :: 0 <= i < |ms| ==> ms[i].parent != ""
    ensures fresh(tree) && fresh(tree.vclock)
    ensures Shows(tree, RunOf(Start(map[]), ms)) && InOrderSoFar(RunOf(Start(map[]), ms), ms)
    ensures statuses == VerdictsOf(Start(map[]), ms)
  {
    var clock := new VectorClock();
    tree := new Tree(clock);
    statuses := [];
    ghost var s := Start(map[]);
    StartIsInOrder(map[]);
    for i := 0 to |ms|
      invariant fresh(tree) && fresh(tree.vclock)
      invariant s == RunOf(Start(map[]), ms[..i]) && InOrderSoFar(s, ms[..i]) && Shows(tree, s)
      invariant statuses == VerdictsOf(Start(map[]), ms[..i])
    {
      RunSnoc(Start(map[]), ms, i);
      VerdictsSnoc(Start(map[]), ms, i);
      var verdict := Deliver(tree, ms, i, s);
      statuses := statuses + [verdict];
      s := After(s, ms[i]);
    }
    assert ms[..|ms|] == ms;
  }

  method Deliver(tree: Tree, ms: seq<Move>, i: nat, ghost s: State) returns (status: Status)
    requires Shows(tree, s) && Ordered(ms) && i < |ms| && ms[i].parent != "" && InOrderSoFar(s, ms[..i])
    modifies tree, tree.vclock
    ensures Shows(tree, After(s, ms[i])) && InOrderSoFar(After(s, ms[i]), ms[..i + 1])
    ensures status == VerdictOf(s, ms[i])
  {
    var m := ms[i];
    StaysInOrder(s, After(s, ms[i]), ms, i);
    assert Move(m.id, m.node, Target(m.parent), m.ref) == m;
    status := tree.Integrate(m.id, m.node, m.parent, m.ref);
  }

  /** A new tree that gets any moves in order, and then one late move that is ready in its turn, is what
      replaying all of them in identifier order leads to. */
  method InOrderThenLate(ms: seq<Move>, late: Move) returns (tree: Tree, statuses: seq<Status>, status: Status)
    requires Ordered(ms) && late.parent != "" && forall i :: 0 <= i < |ms| ==> ms[i].parent != ""
    requires Ready(MovesOf(RunOf(Start(map[]), ms).log), late)
    ensures statuses == VerdictsOf(Start(map[]), ms)
    ensures AllAccurate(RunOf(Start(map[]), ms).log)
    ensures status == VerdictOf(RunOf(Start(map[]), ms), late)
    ensures Shows(tree, After(RunOf(Start(map[]), ms), late)) && Faithful(tree.Now())
    ensures
      var before := MovesOf(RunOf(Start(map[]), ms).log);
      MovesOf(tree.movesLog) == if status == Moved then Merged(before, Dest(before, late.id), late) else before
  {
    ghost var s := RunOf(Start(map[]), ms);
    tree, statuses := DeliverInOrder(ms);
    AnyOneLateMove(s, ms, late);
    StaysFaithful(s, late);
    assert Move(late.id, late.node, Target(late.parent), late.ref) == late;
    status := tree.Integrate(late.id, late.node, late.parent, late.ref);
  }

  // ---- Nodes created in any order ----

  ghost predicate OtherNodes(ops: seq<Move>, i: nat, j: nat)
    requires i < |ops| && j < |ops|
  {
    ops[i].node != ops[j].node
  }

  /** Every node is moved once: it is created and left where it is. */
  ghost predicate Once(ops: seq<Move>)
  {
    forall i, j :: 0 <= i < j < |ops| ==> OtherNodes(ops, i, j)
  }

  /** Nothing can be wrong with the record of the only move of a node. */
  lemma {:induction false} CreationsAreOk(log: seq<Record>, ops: seq<Move>, dest: nat)
    requires dest <= |ops| == |log| && Closed(ops) && Once(ops)
    ensures RecordsOk(log, ops, dest)
  {
    forall i | dest <= i < |ops|
      ensures RecordOk(log, ops, dest, i)
    {
      assert ParentKnown(ops, i);
      forall j | 0 <= j < dest
        ensures ops[..dest][j].node != ops[i].node
      {
        assert OtherNodes(ops, j, i);
      }
    }
  }

  lemma {:induction false} OnceMerged(ops: seq<Move>, dest: nat, m: Move)
    requires dest <= |ops| && Once(ops) && forall i :: 0 <= i < |ops| ==> ops[i].node != m.node
    ensures Once(Merged(ops, dest, m))
  {
    var all := Merged(ops, dest, m);
    forall i, j | 0 <= i < j < |all|
      ensures OtherNodes(all, i, j)
    {
      if i != dest && j != dest {
        assert OtherNodes(ops, if i < dest then i else i - 1, if j < dest then j else j - 1);
      }
    }
  }

  ghost predicate CreatedSoFar(s: State, ms: seq<Move>)
  {
    Faithful(s) && Once(MovesOf(s.log)) && LogFrom(s.log, ms)
  }

  lemma {:induction false} NextIsCreation(s: State, ms: seq<Move>, i: nat)
    requires Once(ms) && i < |ms| && LogFrom(s.log, ms[..i])
    ensures forall j :: 0 <= j < |s.log| ==> MovesOf(s.log)[j].node != ms[i].node
  {
    forall j | 0 <= j < |s.log|
      ensures s.log[j].move.node != ms[i].node
    {
      assert HasMove(ms[..i], s.log[j].move);
      var k :| 0 <= k < i && ms[..i][k] == s.log[j].move;
      assert OtherNodes(ms, k, i);
    }
  }

  ghost predicate ReadyIfLate(s: State, m: Move)
  {
    VerdictOf(s, m) == Moved && !Newest(s.log, m.id) ==> Ready(MovesOf(s.log), m)
  }

  lemma {:induction false} CreationStep(s: State, s': State, ms: seq<Move>, i: nat)
    requires Once(ms) && i < |ms| && CreatedSoFar(s, ms[..i]) && ReadyIfLate(s, ms[i]) && s' == After(s, ms[i])
    ensures Ends(s, ms[i]) && CreatedSoFar(s', ms[..i + 1])
  {
    var m, dest := ms[i], DestOf(s, ms[i]);
    if VerdictOf(s, m) == Moved {
      if !Newest(s.log, m.id) {
        CreationsAreOk(s.log, MovesOf(s.log), dest);
        GoodRecordsAreHandled(s, m);
      }
      StaysFaithful(s, m);
      NextIsCreation(s, ms, i);
      OnceMerged(MovesOf(s.log), dest, m);
      FromMerged(s, s', ms, i, dest);
    } else {
      StaysFaithful(s, m);
      LogFromLonger(s.log, ms, i);
    }
  }

  ghost predicate ReadyInRun(start: State, ms: seq<Move>, i: nat)
    requires i < |ms|
  {
    ReadyIfLate(RunOf(start, ms[..i]), ms[i])
  }

  ghost predicate EndsInRun(start: State, ms: seq<Move>, i: nat)
    requires i < |ms|
  {
    Ends(RunOf(start, ms[..i]), ms[i])
  }

  lemma {:induction false} EndsNext(start: State, ms: seq<Move>, n: nat)
    requires n < |ms| && Ends(RunOf(start, ms[..n]), ms[n])
    requires forall i :: 0 <= i < n ==> EndsInRun(start, ms, i)
    ensures forall i :: 0 <= i < n + 1 ==> EndsInRun(start, ms, i)
  {
    assert EndsInRun(start, ms, n);
  }

  /** Nodes created once each, with parents and siblings created before those that need them, may arrive
      in any order, late ones again and again: no call hangs and the tree is always the ordered replay. */
  lemma {:induction false} CreatedInAnyOrder(start: State, ms: seq<Move>, n: nat)
    requires Once(ms) && n <= |ms| && CreatedSoFar(start, [])
    requires forall i :: 0 <= i < n ==> ReadyInRun(start, ms, i)
    ensures CreatedSoFar(RunOf(start, ms[..n]), ms[..n])
    ensures forall i :: 0 <= i < n ==> EndsInRun(start, ms, i)
    decreases n
  {
    if n > 0 {
      var i := n - 1;
      CreatedInAnyOrder(start, ms, i);
      RunSnoc(start, ms, i);
      assert ReadyInRun(start, ms, i);
      CreationStep(RunOf(start, ms[..i]), RunOf(start, ms[..n]), ms, i);
      EndsNext(start, ms, i);
    }
  }

  // ---- Any number of late moves ----

  /** The record holds the replayed position of its node, if an earlier move knows the node. */
  ghost predicate KnownAccurate(log: seq<Record>, i: nat)
    requires i < |log|
  {
    log[i].move.node in Known(MovesOf(log)[..i]) ==> Accurate(log, i)
  }

  ghost predicate AllKnownAccurate(log: seq<Record>)
  {
    forall i :: 0 <= i < |log| ==> KnownAccurate(log, i)
  }

  /** The move arrives before all greater moves of its node. */
  ghost predicate FirstOfItsNode(s: State, m: Move)
  {
    forall i :: DestOf(s, m) <= i < |s.log| ==> s.log[i].move.node != m.node
  }

  /** With the move in its place the ordered replay skips none of the greater ones. */
  ghost predicate NoneSkipped(s: State, m: Move)
  {
    forall i :: DestOf(s, m) < i <= |s.log| ==> GoesThrough(MovesOf(Filed(s, m)), i)
  }

  ghost predicate LateInTime(s: State, m: Move)
  {
    VerdictOf(s, m) == Moved && !Newest(s.log, m.id) ==>
      Ready(MovesOf(s.log), m) && FirstOfItsNode(s, m) && NoneSkipped(s, m)
  }

  ghost predicate WellRecorded(s: State)
  {
    Faithful(s) && AllKnownAccurate(s.log)
  }

  lemma {:induction false} WellRecordedIsOk(s: State, dest: nat)
    requires WellRecorded(s) && dest <= |s.log|
    ensures RecordsOk(s.log, MovesOf(s.log), dest)
  {
    forall i | dest <= i < |s.log| && MovesOf(s.log)[i].node in Known(MovesOf(s.log)[..i])
      ensures s.log[i].oldPosition == PositionIn(Replay(MovesOf(s.log)[..i]).pos, MovesOf(s.log)[i].node)
    {
      assert KnownAccurate(s.log, i) && Accurate(s.log, i);
    }
    AccurateIsOk(s.log, MovesOf(s.log), dest);
  }

  /** What the move captures is the position the smaller moves gave its node. */
  lemma {:induction false} CapturesReplayed(s: State, m: Move)
    requires Faithful(s) && FirstOfItsNode(s, m)
    ensures PositionIn(s.links.pos, m.node) == PositionIn(Replay(MovesOf(s.log)[..DestOf(s, m)]).pos, m.node)
  {
    Untouched(MovesOf(s.log), DestOf(s, m), m.node);
  }

  lemma {:induction false} RecordStaysAccurate(s: State, m: Move, log: seq<Record>, all: seq<Move>, i: nat)
    requires WellRecorded(s) && FirstOfItsNode(s, m) && i < |log| == |s.log| + 1
    requires all == MovesOf(log) == Merged(MovesOf(s.log), DestOf(s, m), m) && RecordIs(s, m, all, log[i], i)
    requires i > DestOf(s, m) ==> GoesThrough(all, i) && BadAt(Bad(s, m), all, DestOf(s, m), i) == {}
    ensures KnownAccurate(log, i)
  {
    var dest := DestOf(s, m);
    if i < dest {
      assert all[..i] == MovesOf(s.log)[..i] && KnownAccurate(s.log, i);
    } else if i == dest {
      assert all[..i] == MovesOf(s.log)[..i] && all[i] == m;
      CapturesReplayed(s, m);
    } else {
      assert log[i].move == all[i];
    }
  }

  lemma {:induction false} MovedStaysRecorded(s: State, m: Move)
    requires WellRecorded(s) && VerdictOf(s, m) == Moved
    requires Newest(s.log, m.id) || (Ready(MovesOf(s.log), m) && FirstOfItsNode(s, m) && NoneSkipped(s, m))
    ensures WalksEnd(s, m) && WellRecorded(After(s, m))
  {
    var all, log, dest := MovesOf(Filed(s, m)), After(s, m).log, DestOf(s, m);
    if Newest(s.log, m.id) {
      NewestIsLast(s, m);
    } else {
      WellRecordedIsOk(s, dest);
      GoodRecordsAreHandled(s, m);
      NoBadNodes(s.log, MovesOf(s.log), dest);
    }
    StaysFaithful(s, m);
    FiledMoves(s, m);
    forall i | 0 <= i < |log|
      ensures KnownAccurate(log, i)
    {
      if i > dest {
        NeverBad(all, dest, i);
        assert GoesThrough(all, i);
      }
      assert RecordAfter(s, m, i);
      RecordStaysAccurate(s, m, log, all, i);
    }
  }

  lemma {:induction false} StaysRecorded(s: State, s': State, m: Move)
    requires WellRecorded(s) && LateInTime(s, m) && s' == After(s, m)
    ensures Ends(s, m) && WellRecorded(s')
  {
    if VerdictOf(s, m) == Moved {
      MovedStaysRecorded(s, m);
    } else {
      StaysFaithful(s, m);
    }
  }

  ghost predicate LateInRun(start: State, ms: seq<Move>, i: nat)
    requires i < |ms|
  {
    LateInTime(RunOf(start, ms[..i]), ms[i])
  }

  /** However many moves are late: as long as each arrives before all greater moves of its node, and makes
      the ordered replay skip no greater move, no call hangs and the tree is always the ordered replay. */
  lemma {:induction false} LateAgainAndAgain(start: State, ms: seq<Move>, n: nat)
    requires n <= |ms| && WellRecorded(start)
    requires forall i :: 0 <= i < n ==> LateInRun(start, ms, i)
    ensures WellRecorded(RunOf(start, ms[..n]))
    ensures forall i :: 0 <= i < n ==> EndsInRun(start, ms, i)
    decreases n
  {
    if n > 0 {
      var i := n - 1;
      LateAgainAndAgain(start, ms, i);
      RunSnoc(start, ms, i);
      assert LateInRun(start, ms, i);
      StaysRecorded(RunOf(start, ms[..i]), RunOf(start, ms[..n]), ms[i]);
      EndsNext(start, ms, i);
    }
  }
}

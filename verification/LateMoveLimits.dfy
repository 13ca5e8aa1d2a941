/** What late moves come to when the undo records are not good enough. All runs here start from a
    new tree, and every move of them has the status of a move that goes ahead. */
module LateMoveLimits {
  import opened Crdt
  import opened Options
  import opened Rga
  import opened MoveTree
  import opened LateMove
  import opened Siblings
  import opened TreeSteps
  import opened TreeRuns

  /** The move goes ahead and makes the one state of the other. */
  ghost predicate Goes(s: State, m: Move, t: State)
  {
    VerdictOf(s, m) == Moved && After(s, m) == t
  }

  lemma {:induction false} InFront(s: seq<Atom>, a: Atom)
    requires IsRoot(a.ref) && (s == [] || s[0].id.Less(a.id))
    ensures Insert(s, a) == [a] + s
  {
  }

  lemma {:induction false} DestIs(ops: seq<Move>, d: nat, id: ID)
    requires d <= |ops| && (d > 0 ==> ops[d - 1].id.Less(id))
    requires forall i :: d <= i < |ops| ==> !ops[i].id.Less(id)
    ensures Dest(ops, id) == d
  {
    if d < |ops| {
      DestIs(ops[..|ops| - 1], d, id);
    }
  }

  /** A move in order that puts its node at the front of a list. */
  ghost function PutInFront(s: State, m: Move): State
  {
    var rest := if m.node in s.links.pos then s.links.alive - {s.links.pos[m.node]} else s.links.alive;
    State(s.nodes + {m.node}, s.children[m.parent := [Atom(m.id, m.ref)] + SiblingsOf(s.children, m.parent)],
          Links(s.links.pos[m.node := m.Key()], rest[m.Key() := m.node]),
          s.log + [Record(m, PositionIn(s.links.pos, m.node))], s.seen[m.id.origin := m.id])
  }

  lemma {:induction false} InOrderAfter(s: State, m: Move)
    requires VerdictOf(s, m) == Moved && Newest(s.log, m.id) && IsRoot(m.ref)
    requires !Ancestor(s.links.pos, m.node, m.parent)
    requires m.node in s.links.pos ==> s.links.pos[m.node] != m.Key()
    requires SiblingsOf(s.children, m.parent) == [] || SiblingsOf(s.children, m.parent)[0].id.Less(m.id)
    ensures After(s, m) == PutInFront(s, m)
  {
    NewestIsLast(s, m);
    InFront(SiblingsOf(s.children, m.parent), Atom(m.id, m.ref));
    assert MoveTo(Positioned(s, m), m.node, m.Key()).alive == PutInFront(s, m).links.alive;
  }

  function At(origin: string, clock: int): ID
  {
    ID(origin, clock, 0)
  }

  function Under(origin: string, clock: int, node: string, parent: string): Move
  {
    Move(At(origin, clock), node, parent, LIST_START)
  }

  // ---- Two late moves ----

  const X1 := Under("a", 1, "x", ROOT)
  const Z2 := Under("a", 2, "z", "x")
  const Z4 := Under("a", 4, "z", ROOT)
  const X7 := Under("a", 7, "x", "z")
  const X6 := Under("b", 6, "x", TRASH)

  ghost function S1(): State
  {
    PutInFront(Start(map[]), X1)
  }

  ghost function S2(): State
  {
    PutInFront(S1(), Z2)
  }

  ghost function S4(): State
  {
    PutInFront(S2(), Z4)
  }

  ghost function S7(): State
  {
    PutInFront(S4(), X7)
  }

  lemma {:induction false} Step1()
    ensures Goes(Start(map[]), X1, S1())
  {
    var s := Start(map[]);
    assert VerdictOf(s, X1) == Moved;
    AncestorStep(s.links.pos, "x", ROOT);
    InOrderAfter(s, X1);
  }

  lemma {:induction false} Step2()
    ensures Goes(S1(), Z2, S2())
  {
    var s := S1();
    assert VerdictOf(s, Z2) == Moved;
    AncestorStep(s.links.pos, "z", "x");
    AncestorStep(s.links.pos, "z", ROOT);
    InOrderAfter(s, Z2);
  }

  lemma {:induction false} Step4()
    ensures Goes(S2(), Z4, S4())
  {
    var s := S2();
    assert VerdictOf(s, Z4) == Moved;
    AncestorStep(s.links.pos, "z", ROOT);
    InOrderAfter(s, Z4);
  }

  lemma {:induction false} Step7()
    ensures Goes(S4(), X7, S7())
  {
    var s := S4();
    assert VerdictOf(s, X7) == Moved;
    AncestorStep(s.links.pos, "x", "z");
    AncestorStep(s.links.pos, "x", ROOT);
    InOrderAfter(s, X7);
  }

  /** A late move with one newer move in front of it. */
  lemma {:induction false} LateByOne(s: State, m: Move)
    requires VerdictOf(s, m) == Moved && s.log != [] && DestOf(s, m) == |s.log| - 1
    ensures
      var last := s.log[|s.log| - 1];
      var undone := Undo(Positioned(s, m), last.move.node, last.oldPosition);
      var done := MoveTo(undone, m.node, m.Key());
      && After(s, m).links == MoveTo(done, last.move.node, last.move.Key())
      && After(s, m).log == s.log[..|s.log| - 1] + [Record(m, PositionIn(s.links.pos, m.node)), Refreshed(done, last)]
  {
    var d, n := DestOf(s, m), |s.log|;
    var last := s.log[d];
    assert UndoneFrom(Positioned(s, m), s.log, n) == Positioned(s, m);
    assert MovesOf(Filed(s, m))[d] == m && Filed(s, m)[n] == last;
    assert LinksAt(s, m, d) == UndoneFor(s, m);
    assert LinksAt(s, m, n) == MoveTo(UndoneFor(s, m), m.node, m.Key());
    assert LinksAt(s, m, n + 1) == MoveTo(LinksAt(s, m, n), last.move.node, last.move.Key());
    assert LogAt(s, m, n + 1)[n] == Refreshed(LinksAt(s, m, n), last);
  }

  ghost function S6(): State
  {
    After(S7(), X6)
  }

  lemma {:induction false} Step6()
    ensures Goes(S7(), X6, S6())
    ensures S6().nodes == S7().nodes && S6().seen == S7().seen[X6.id.origin := X6.id]
    ensures S6().children == S7().children[TRASH := [Atom(X6.id, X6.ref)]]
  {
    assert VerdictOf(S7(), X6) == Moved;
    InFront([], Atom(X6.id, X6.ref));
    assert [Atom(X6.id, X6.ref)] + [] == [Atom(X6.id, X6.ref)];
    assert S7().nodes + {"x"} == S7().nodes;
  }

  /** x is below z and z below the root. */
  ghost predicate XBelowZ(l: Links)
  {
    && "x" in l.pos && l.pos["x"] == X7.Key() && "z" in l.pos && l.pos["z"] == Z4.Key()
    && ROOT !in l.pos && TRASH !in l.pos && Z2.Key() !in l.alive
  }

  lemma {:induction false} Redo7(l: Links)
    requires XBelowZ(l)
    ensures
      var undone := Undo(l, "x", Some(X1.Key()));
      var done := MoveTo(undone, "x", X6.Key());
      var redone := MoveTo(done, "x", X7.Key());
      && !Ancestor(done.pos, "x", "z") && "x" in done.pos && done.pos["x"] == X6.Key()
      && redone.pos == l.pos && Z2.Key() !in redone.alive
  {
    var undone := Undo(l, "x", Some(X1.Key()));
    AncestorStep(undone.pos, "x", TRASH);
    var done := MoveTo(undone, "x", X6.Key());
    AncestorStep(done.pos, "x", "z");
    AncestorStep(done.pos, "x", ROOT);
  }

  lemma {:induction false} Links7()
    ensures XBelowZ(S7().links) && S7().log == FirstRecords() + [Record(X7, Some(X1.Key()))]
  {
    Log4();
  }

  ghost function FirstRecords(): seq<Record>
  {
    [Record(X1, None), Record(Z2, None), Record(Z4, Some(Z2.Key()))]
  }

  lemma {:induction false} Log4()
    ensures S4().log == FirstRecords()
  {
    assert S1().log == [Record(X1, None)];
    assert S2().log == S1().log + [Record(Z2, None)];
    assert S4().log == S2().log + [Record(Z4, Some(Z2.Key()))];
  }

  /** The late move records the position that the newer one gave its node. */
  lemma {:induction false} LateX6(s: State)
    requires XBelowZ(s.links) && s.log == FirstRecords() + [Record(X7, Some(X1.Key()))] && VerdictOf(s, X6) == Moved
    ensures After(s, X6).links.pos == s.links.pos && Z2.Key() !in After(s, X6).links.alive
    ensures After(s, X6).log == FirstRecords() + [Record(X6, Some(X7.Key())), Record(X7, Some(X6.Key()))]
  {
    DestIs(MovesOf(s.log), 3, X6.id);
    LateByOne(s, X6);
    Redo7(Positioned(s, X6));
  }

  lemma {:induction false} Links6()
    ensures S6().links.pos == S7().links.pos && Z2.Key() !in S6().links.alive
    ensures S6().log == FirstRecords() + [Record(X6, Some(X7.Key())), Record(X7, Some(X6.Key()))]
  {
    Step6();
    Links7();
    LateX6(S7());
  }

  // ---- A wrong tree ----

  const Z5 := Under("c", 5, "z", "x")
  const W3 := Under("c", 3, "w", "x")

  /** What matters of the state after these moves. */
  ghost predicate Six(s: State)
  {
    && s.log == FirstRecords() + [Record(X6, Some(X7.Key())), Record(X7, Some(X6.Key()))]
    && XBelowZ(s.links) && "x" in s.nodes && "c" !in s.seen
    && "x" in s.children && s.children["x"] == [Atom(Z2.id, Z2.ref)]
  }

  lemma {:induction false} SixHolds()
    ensures Six(S6())
  {
    Step6();
    Links7();
    Links6();
  }

  lemma {:induction false} SixMoves(s: State)
    requires Six(s)
    ensures MovesOf(s.log) == [X1, Z2, Z4, X6, X7]
    ensures DestOf(s, Z5) == 3 && DestOf(s, W3) == 2
  {
    var ops := [X1, Z2, Z4, X6, X7];
    assert MovesOf(s.log) == ops;
    DestIs(ops, 3, Z5.id);
    DestIs(ops, 2, W3.id);
  }

  lemma {:induction false} BothMoved(s: State)
    requires Six(s)
    ensures VerdictOf(s, Z5) == Moved && VerdictOf(s, W3) == Moved
  {
  }

  lemma {:induction false} SixIsClosed()
    ensures Closed([X1, Z2, Z4, X6, X7])
  {
    var ops := [X1, Z2, Z4, X6, X7];
    forall i | 0 <= i < |ops|
      ensures ParentKnown(ops, i)
    {
      assert i > 0 ==> ops[..i][0] == X1;
      assert i > 1 ==> ops[..i][1] == Z2;
    }
  }

  lemma {:induction false} ReadyInTurn(s: State, m: Move)
    requires Six(s) && (m == Z5 || m == W3)
    ensures Ready(MovesOf(s.log), m)
  {
    var ops := [X1, Z2, Z4, X6, X7];
    SixMoves(s);
    SixIsClosed();
    assert ops[..2][0] == X1 && ops[..3][0] == X1;
  }

  /** x is undone to the place the newest move gave it, below z. */
  lemma {:induction false} UndoneForZ5(s: State)
    requires Six(s)
    ensures XBelowZ(UndoneFor(s, Z5).(alive := map[]))
  {
    var l := Positioned(s, Z5);
    SixMoves(s);
    assert UndoneFrom(l, s.log, 5) == l;
    assert UndoneFrom(l, s.log, 4) == Undo(l, "x", Some(X6.Key()));
    assert UndoneFrom(l, s.log, 3) == Undo(UndoneFrom(l, s.log, 4), "x", Some(X7.Key()));
  }

  /** Redone from there the late move is taken for one that closes a cycle. */
  lemma {:induction false} RedoneForZ5(l: Links)
    requires XBelowZ(l.(alive := map[]))
    ensures
      var l4 := MoveTo(l, "z", Z5.Key());
      var l5 := MoveTo(l4, "x", X6.Key());
      var l6 := MoveTo(l5, "x", X7.Key());
      && Grounded(l.pos, "x") && Grounded(l4.pos, TRASH) && Grounded(l5.pos, "z")
      && "z" in l6.pos && l6.pos["z"] == Z4.Key()
  {
    AncestorStep(l.pos, "z", "x");
    var l4 := MoveTo(l, "z", Z5.Key());
    AncestorStep(l4.pos, "x", TRASH);
    var l5 := MoveTo(l4, "x", X6.Key());
    AncestorStep(l5.pos, "x", "z");
    AncestorStep(l5.pos, "x", ROOT);
    assert EndsAfter(l.pos, "x", 3);
    assert EndsAfter(l4.pos, TRASH, 1);
    assert EndsAfter(l5.pos, "z", 2);
  }

  lemma {:induction false} LateLeavesZ(s: State)
    requires Six(s)
    ensures WalksEnd(s, Z5)
    ensures "z" in LinksAt(s, Z5, 6).pos && LinksAt(s, Z5, 6).pos["z"] == Z4.Key()
  {
    var all := [X1, Z2, Z4, Z5, X6, X7];
    SixMoves(s);
    FiledMoves(s, Z5);
    assert MovesOf(Filed(s, Z5)) == all;
    UndoneForZ5(s);
    RedoneForZ5(UndoneFor(s, Z5));
    assert LinksAt(s, Z5, 4) == MoveTo(LinksAt(s, Z5, 3), "z", Z5.Key());
    assert LinksAt(s, Z5, 5) == MoveTo(LinksAt(s, Z5, 4), "x", X6.Key());
    assert LinksAt(s, Z5, 6) == MoveTo(LinksAt(s, Z5, 5), "x", X7.Key());
    assert WalkEnds(s, Z5, 3) && WalkEnds(s, Z5, 4) && WalkEnds(s, Z5, 5);
  }

  lemma {:induction false} ReplaySnoc(ops: seq<Move>, m: Move)
    ensures Replay(ops + [m]) == MoveTo(Replay(ops), m.node, m.Key())
  {
    assert (ops + [m])[..|ops|] == ops;
  }

  lemma {:induction false} FirstFour()
    ensures
      var p := Replay([X1, Z2, Z4, Z5]).pos;
      "x" in p && p["x"] == X1.Key() && "z" in p && p["z"] == Z5.Key() && ROOT !in p && TRASH !in p
  {
    var p0: map<string, PosKey> := map[];
    ReplaySnoc([], X1);
    AncestorStep(p0, "x", ROOT);
    var p1 := p0["x" := X1.Key()];
    assert [] + [X1] == [X1] && Replay([X1]).pos == p1;
    ReplaySnoc([X1], Z2);
    AncestorStep(p1, "z", "x");
    AncestorStep(p1, "z", ROOT);
    var p2 := p1["z" := Z2.Key()];
    assert [X1] + [Z2] == [X1, Z2] && Replay([X1, Z2]).pos == p2;
    ReplaySnoc([X1, Z2], Z4);
    AncestorStep(p2, "z", ROOT);
    var p4 := p2["z" := Z4.Key()];
    assert [X1, Z2] + [Z4] == [X1, Z2, Z4] && Replay([X1, Z2, Z4]).pos == p4;
    ReplaySnoc([X1, Z2, Z4], Z5);
    AncestorStep(p4, "z", "x");
    AncestorStep(p4, "z", ROOT);
    assert [X1, Z2, Z4] + [Z5] == [X1, Z2, Z4, Z5];
  }

  /** In order, the late move puts z below x. */
  lemma {:induction false} OrderedPlacesZ()
    ensures var p := Replay([X1, Z2, Z4, Z5, X6, X7]).pos; "z" in p && p["z"] == Z5.Key()
  {
    var four := [X1, Z2, Z4, Z5];
    FirstFour();
    ReplaySnoc(four, X6);
    ReplaySnoc(four + [X6], X7);
    assert four + [X6] + [X7] == [X1, Z2, Z4, Z5, X6, X7];
  }

  /** The states that a new tree goes through; only the last move is late. */
  ghost predicate FiveMoves(s1: State, s2: State, s4: State, s7: State, s6: State)
  {
    Goes(Start(map[]), X1, s1) && Goes(s1, Z2, s2) && Goes(s2, Z4, s4) && Goes(s4, X7, s7) && Goes(s7, X6, s6)
  }

  lemma {:induction false} Accurate7()
    ensures Faithful(S7()) && AllAccurate(S7().log)
  {
    StartIsInOrder(map[]);
    Step1();
    InOrderStep(Start(map[]), X1);
    Step2();
    InOrderStep(S1(), Z2);
    Step4();
    InOrderStep(S2(), Z4);
    Step7();
    InOrderStep(S4(), X7);
  }

  lemma {:induction false} SevenIsClosed()
    ensures Closed([X1, Z2, Z4, X7])
  {
    var ops := [X1, Z2, Z4, X7];
    forall i | 0 <= i < |ops|
      ensures ParentKnown(ops, i)
    {
      assert i > 0 ==> ops[..i][0] == X1;
      assert i > 1 ==> ops[..i][1] == Z2;
    }
  }

  lemma {:induction false} LogFromItself(log: seq<Record>)
    ensures LogFrom(log, MovesOf(log))
  {
    forall i | 0 <= i < |log|
      ensures HasMove(MovesOf(log), log[i].move)
    {
      assert MovesOf(log)[i] == log[i].move;
    }
  }

  lemma {:induction false} Ready6(s: State)
    requires s.log == FirstRecords() + [Record(X7, Some(X1.Key()))]
    ensures Ready(MovesOf(s.log), X6) && LogFrom(s.log, MovesOf(s.log))
  {
    var ops := [X1, Z2, Z4, X7];
    assert MovesOf(s.log) == ops;
    DestIs(ops, 3, X6.id);
    SevenIsClosed();
    LogFromItself(s.log);
  }

  /** So far all is well: the first late move is handled. */
  lemma {:induction false} SixIsFaithful()
    ensures Faithful(S6())
  {
    Accurate7();
    Links7();
    Ready6(S7());
    AnyOneLateMove(S7(), MovesOf(S7().log), X6);
  }

  lemma {:induction false} WrongTree(s: State)
    requires Six(s)
    ensures After(s, Z5).links != Replay(MovesOf(After(s, Z5).log))
  {
    BothMoved(s);
    LateLeavesZ(s);
    SixMoves(s);
    LogMoves(s, Z5, 6);
    FiledMoves(s, Z5);
    assert Merged([X1, Z2, Z4, X6, X7], 3, Z5) == [X1, Z2, Z4, Z5, X6, X7];
    OrderedPlacesZ();
  }

  /** The second of two late moves can come out wrong. The first one recorded the position its node had
      when it arrived, before the newer move was undone; undoing it for the second one brings back that
      position from the future. */
  lemma {:induction false} SecondLateMoveDiverges() returns (s1: State, s2: State, s4: State, s7: State, s: State)
    ensures FiveMoves(s1, s2, s4, s7, s) && Faithful(s)
    ensures VerdictOf(s, Z5) == Moved && Ready(MovesOf(s.log), Z5) && WalksEnd(s, Z5)
    ensures After(s, Z5).links != Replay(MovesOf(After(s, Z5).log))
  {
    s1, s2, s4, s7, s := S1(), S2(), S4(), S7(), S6();
    Reached();
    BothMoved(s);
    ReadyInTurn(s, Z5);
    LateLeavesZ(s);
    WrongTree(s);
  }

  lemma {:induction false} Reached()
    ensures FiveMoves(S1(), S2(), S4(), S7(), S6()) && Faithful(S6()) && Six(S6())
  {
    Step1();
    Step2();
    Step4();
    Step7();
    Step6();
    SixIsFaithful();
    SixHolds();
  }

  // ---- A walk without end ----

  lemma {:induction false} UndoneForW3(s: State)
    requires Six(s)
    ensures
      var p := UndoneFor(s, W3).pos;
      "x" in p && p["x"].list == "z" && "z" in p && p["z"].list == "x"
  {
    var l := Positioned(s, W3);
    SixMoves(s);
    assert UndoneFrom(l, s.log, 5) == l;
    assert UndoneFrom(l, s.log, 4) == Undo(l, "x", Some(X6.Key()));
    assert UndoneFrom(l, s.log, 3) == Undo(UndoneFrom(l, s.log, 4), "x", Some(X7.Key()));
    assert UndoneFrom(l, s.log, 2) == Undo(UndoneFrom(l, s.log, 3), "z", Some(Z2.Key()));
  }

  /** Two nodes below each other are all that a search from one of them meets, again and again. */
  lemma {:induction false} TwoAround(pos: map<string, PosKey>, a: string, b: string, k: nat)
    requires a in pos && pos[a].list == b && b in pos && pos[b].list == a
    ensures Up(pos, a, k) == Some(if k % 2 == 0 then a else b)
    decreases k
  {
    if k > 0 {
      TwoAround(pos, b, a, k - 1);
    }
  }

  lemma {:induction false} NeverDecided(pos: map<string, PosKey>, a: string, b: string, n: string)
    requires a in pos && pos[a].list == b && b in pos && pos[b].list == a && n != a && n != b
    ensures !Decided(pos, n, a)
  {
    forall k: nat
      ensures !Above(pos, n, a, k) && !EndsAfter(pos, a, k)
    {
      TwoAround(pos, a, b, k);
    }
  }

  lemma {:induction false} WalksOn(s: State)
    requires Six(s)
    ensures !Decided(UndoneFor(s, W3).pos, W3.node, W3.parent) && !WalksEnd(s, W3)
  {
    UndoneForW3(s);
    NeverDecided(UndoneFor(s, W3).pos, "x", "z", "w");
    SixMoves(s);
    assert Filed(s, W3)[2].move == W3 && LinksAt(s, W3, 2) == UndoneFor(s, W3);
    assert !WalkEnds(s, W3, 2);
  }

  /** Undoing can even close a cycle, x below z below x, and then looking for w above x does not come
      to an end. */
  lemma {:induction false} LateMoveNeverEnds() returns (s1: State, s2: State, s4: State, s7: State, s: State)
    ensures FiveMoves(s1, s2, s4, s7, s) && Faithful(s)
    ensures VerdictOf(s, W3) == Moved && Ready(MovesOf(s.log), W3)
    ensures !Decided(UndoneFor(s, W3).pos, W3.node, W3.parent) && !WalksEnd(s, W3)
  {
    s1, s2, s4, s7, s := S1(), S2(), S4(), S7(), S6();
    Reached();
    BothMoved(s);
    ReadyInTurn(s, W3);
    WalksOn(s);
  }

  // ---- A sentinel that is moved ----

  const P1 := Under("a", 1, "p", ROOT)
  const ROOT3 := Under("a", 3, ROOT, TRASH)
  const TRASH2 := Under("b", 2, TRASH, "p")

  ghost function T1(): State
  {
    PutInFront(Start(map[]), P1)
  }

  ghost function T3(): State
  {
    PutInFront(T1(), ROOT3)
  }

  lemma {:induction false} StepP1()
    ensures Goes(Start(map[]), P1, T1())
  {
    var s := Start(map[]);
    assert VerdictOf(s, P1) == Moved;
    AncestorStep(s.links.pos, "p", ROOT);
    InOrderAfter(s, P1);
  }

  lemma {:induction false} StepRoot3()
    ensures Goes(T1(), ROOT3, T3())
  {
    var s := T1();
    assert VerdictOf(s, ROOT3) == Moved;
    AncestorStep(s.links.pos, ROOT, TRASH);
    InOrderAfter(s, ROOT3);
  }

  lemma {:induction false} RunOfT3()
    ensures Goes(Start(map[]), P1, T1()) && Goes(T1(), ROOT3, T3()) && Faithful(T3())
  {
    StepP1();
    StepRoot3();
    StartIsInOrder(map[]);
    InOrderStep(Start(map[]), P1);
    InOrderStep(T1(), ROOT3);
  }

  ghost predicate RootBelowTrash(s: State)
  {
    && "p" in s.links.pos && s.links.pos["p"] == P1.Key()
    && ROOT in s.links.pos && s.links.pos[ROOT] == ROOT3.Key() && TRASH !in s.links.pos
    && s.log == [Record(P1, None), Record(ROOT3, None)] && VerdictOf(s, TRASH2) == Moved
  }

  lemma {:induction false} T3Holds()
    ensures RootBelowTrash(T3())
  {
    assert VerdictOf(T3(), TRASH2) == Moved;
  }

  /** The root keeps its dangling link to the trash, which is then taken for an ancestor. */
  lemma {:induction false} TrashStays(s: State)
    requires RootBelowTrash(s)
    ensures TRASH !in After(s, TRASH2).links.pos && MovesOf(After(s, TRASH2).log) == [P1, TRASH2, ROOT3]
    ensures DestOf(s, TRASH2) == 1
  {
    assert MovesOf(s.log) == [P1, ROOT3];
    DestIs([P1, ROOT3], 1, TRASH2.id);
    LateByOne(s, TRASH2);
    var undone := Undo(Positioned(s, TRASH2), ROOT, None);
    AncestorStep(undone.pos, TRASH, "p");
    AncestorStep(undone.pos, TRASH, ROOT);
    AncestorStep(undone.pos, ROOT, TRASH);
    assert MovesOf(After(s, TRASH2).log) == [P1, TRASH2, ROOT3];
  }

  lemma {:induction false} OrderedPlacesTrash()
    ensures TRASH in Replay([P1, TRASH2, ROOT3]).pos
  {
    var p0: map<string, PosKey> := map[];
    ReplaySnoc([], P1);
    AncestorStep(p0, "p", ROOT);
    var p1 := p0["p" := P1.Key()];
    assert [] + [P1] == [P1] && Replay([P1]).pos == p1;
    ReplaySnoc([P1], TRASH2);
    AncestorStep(p1, TRASH, "p");
    AncestorStep(p1, TRASH, ROOT);
    assert [P1] + [TRASH2] == [P1, TRASH2];
    ReplaySnoc([P1, TRASH2], ROOT3);
    assert [P1, TRASH2] + [ROOT3] == [P1, TRASH2, ROOT3];
  }

  /** Moving a sentinel is not safe against late moves either: undoing its first move leaves its link
      dangling, and the link is followed. */
  lemma {:induction false} LateMoveBelowMovedSentinelDiverges() returns (s1: State, s: State)
    ensures Goes(Start(map[]), P1, s1) && Goes(s1, ROOT3, s) && Faithful(s) && VerdictOf(s, TRASH2) == Moved
    ensures RecordsOk(s.log, MovesOf(s.log), DestOf(s, TRASH2))
    ensures After(s, TRASH2).links != Replay(MovesOf(After(s, TRASH2).log))
  {
    s1, s := T1(), T3();
    RunOfT3();
    T3Holds();
    TrashStays(s);
    OrderedPlacesTrash();
    SentinelRecordOk(s);
  }

  lemma {:induction false} OnlyP1()
    ensures Replay([P1]).pos == map["p" := P1.Key()]
  {
    var p0: map<string, PosKey> := map[];
    ReplaySnoc([], P1);
    AncestorStep(p0, "p", ROOT);
    assert [] + [P1] == [P1];
  }

  lemma {:induction false} SentinelRecordOk(s: State)
    requires RootBelowTrash(s) && DestOf(s, TRASH2) == 1
    ensures RecordsOk(s.log, MovesOf(s.log), 1)
  {
    var ops := MovesOf(s.log);
    OnlyP1();
    assert ops[..1] == [P1] && ops[1] == ROOT3;
    forall i | 1 <= i < 2
      ensures RecordOk(s.log, ops, 1, i)
    {
      assert i == 1 && s.log[1].oldPosition == None;
    }
  }

  // ---- A wrong record without harm ----

  const TRASHED7 := Under("a", 7, "x", TRASH)
  const BACK6 := Under("b", 6, "x", ROOT)
  const W5 := Under("c", 5, "w", ROOT)

  ghost function U7(): State
  {
    PutInFront(S1(), TRASHED7)
  }

  ghost function U6(): State
  {
    After(U7(), BACK6)
  }

  lemma {:induction false} StepTrashed7()
    ensures Goes(S1(), TRASHED7, U7())
  {
    var s := S1();
    assert VerdictOf(s, TRASHED7) == Moved;
    AncestorStep(s.links.pos, "x", TRASH);
    InOrderAfter(s, TRASHED7);
  }

  lemma {:induction false} StepBack6()
    ensures Goes(U7(), BACK6, U6())
    ensures U6().nodes == U7().nodes && U6().seen == U7().seen[BACK6.id.origin := BACK6.id]
    ensures SiblingsOf(U6().children, ROOT) == [Atom(BACK6.id, BACK6.ref), Atom(X1.id, X1.ref)]
  {
    assert VerdictOf(U7(), BACK6) == Moved;
    InFront([Atom(X1.id, X1.ref)], Atom(BACK6.id, BACK6.ref));
  }

  ghost predicate InTrash(l: Links)
  {
    && "x" in l.pos && l.pos["x"] == TRASHED7.Key() && ROOT !in l.pos && TRASH !in l.pos
    && X1.Key() !in l.alive && BACK6.Key() !in l.alive
  }

  lemma {:induction false} RedoTrashed7(l: Links)
    requires InTrash(l.(alive := l.alive - {BACK6.Key()})) && BACK6.Key() in l.alive
    ensures
      var done := MoveTo(Undo(l, "x", Some(X1.Key())), "x", BACK6.Key());
      var redone := MoveTo(done, "x", TRASHED7.Key());
      && !Ancestor(done.pos, "x", TRASH) && "x" in done.pos && done.pos["x"] == BACK6.Key()
      && InTrash(redone)
  {
    var undone := Undo(l, "x", Some(X1.Key()));
    AncestorStep(undone.pos, "x", ROOT);
    var done := MoveTo(undone, "x", BACK6.Key());
    AncestorStep(done.pos, "x", TRASH);
  }

  /** The late move has recorded the position in the trash. */
  lemma {:induction false} LateBack6(s: State)
    requires InTrash(s.links) && s.log == [Record(X1, None), Record(TRASHED7, Some(X1.Key()))]
    requires VerdictOf(s, BACK6) == Moved
    ensures InTrash(After(s, BACK6).links)
    ensures After(s, BACK6).log ==
            [Record(X1, None), Record(BACK6, Some(TRASHED7.Key())), Record(TRASHED7, Some(BACK6.Key()))]
  {
    DestIs(MovesOf(s.log), 1, BACK6.id);
    LateByOne(s, BACK6);
    RedoTrashed7(Positioned(s, BACK6));
  }

  /** What matters of the state after these moves. */
  ghost predicate Restored(s: State)
  {
    && s.log == [Record(X1, None), Record(BACK6, Some(TRASHED7.Key())), Record(TRASHED7, Some(BACK6.Key()))]
    && InTrash(s.links) && {ROOT, "x"} <= s.nodes && "c" !in s.seen && SiblingsOf(s.children, "x") == []
    && SiblingsOf(s.children, ROOT) == [Atom(BACK6.id, BACK6.ref), Atom(X1.id, X1.ref)]
  }

  lemma {:induction false} RestoredHolds()
    ensures Restored(U6())
  {
    assert InTrash(U7().links);
    StepBack6();
    LateBack6(U7());
  }

  lemma {:induction false} RestoredMoves(s: State, m: Move)
    requires Restored(s) && (m == W5 || m == BELOW5)
    ensures VerdictOf(s, m) == Moved && MovesOf(s.log) == [X1, BACK6, TRASHED7] && DestOf(s, m) == 1
    ensures MovesOf(Filed(s, m)) == [X1, m, BACK6, TRASHED7]
  {
    var ops := [X1, BACK6, TRASHED7];
    assert MovesOf(s.log) == ops;
    DestIs(ops, 1, m.id);
    FiledMoves(s, m);
    assert Merged(ops, 1, m) == [X1, m, BACK6, TRASHED7];
  }

  lemma {:induction false} RestoredIsClosed(m: Move)
    requires m == W5 || m == BELOW5
    ensures Closed([X1, BACK6, TRASHED7]) && Closed([X1, m, BACK6, TRASHED7])
  {
    var ops, all := [X1, BACK6, TRASHED7], [X1, m, BACK6, TRASHED7];
    forall i | 0 <= i < |ops|
      ensures ParentKnown(ops, i)
    {
    }
    forall i | 0 <= i < |all|
      ensures ParentKnown(all, i)
    {
      assert i > 0 ==> all[..i][0] == X1;
    }
  }

  lemma {:induction false} OnlyX1()
    ensures Replay([X1]).pos == map["x" := X1.Key()]
  {
    var p0: map<string, PosKey> := map[];
    ReplaySnoc([], X1);
    AncestorStep(p0, "x", ROOT);
    assert [] + [X1] == [X1];
  }

  lemma {:induction false} OnlyXIsBad(s: State, m: Move)
    requires Restored(s) && (m == W5 || m == BELOW5)
    ensures Bad(s, m) == {"x"} && !RecordsOk(s.log, MovesOf(s.log), 1)
  {
    var ops := [X1, BACK6, TRASHED7];
    RestoredMoves(s, m);
    OnlyX1();
    assert ops[..1] == [X1] && ops[..1][0] == X1;
    assert FirstAt(ops, 1, "x") == 1;
    assert !RecordOk(s.log, ops, 1, 1) && RecordOk(s.log, ops, 1, 2);
    forall n
      ensures n in Bad(s, m) <==> n == "x"
    {
      BadNodeFirst(s.log, ops, 1, n);
    }
  }

  /** Nothing is above a node without a position. */
  lemma {:induction false} NothingAbove(pos: map<string, PosKey>, a: string, n: string)
    requires n !in pos
    ensures !Ancestor(pos, a, n) && Decided(pos, a, n)
    ensures forall x :: Met(pos, a, n, x) ==> x == n
  {
    AncestorStep(pos, a, n);
    assert EndsAfter(pos, n, 1);
  }

  lemma {:induction false} SentinelsStay(ops: seq<Move>, i: nat)
    requires Closed(ops) && NotUnderItself(ops) && i <= |ops|
    ensures ROOT !in Replay(ops[..i]).pos && TRASH !in Replay(ops[..i]).pos
  {
    ClosedPrefix(ops, i);
    EveryMovedNodeIsPlaced(ops[..i]);
  }

  /** x goes back below the root. */
  lemma {:induction false} XIsHealed(s: State, m: Move)
    requires Restored(s) && (m == W5 || m == BELOW5)
    ensures Ready(MovesOf(s.log), m) && AllHealed(s, m)
  {
    var all := [X1, m, BACK6, TRASHED7];
    RestoredMoves(s, m);
    OnlyXIsBad(s, m);
    RestoredIsClosed(m);
    SentinelsStay(all, 2);
    NothingAbove(Replay(all[..2]).pos, "x", ROOT);
    assert all[2].node == "x" && GoesThrough(all, 2);
  }

  /** No search meets x while it is bad. */
  lemma {:induction false} XIsNotMet(s: State)
    requires Restored(s)
    ensures NoneMet(s, W5)
  {
    var all := [X1, W5, BACK6, TRASHED7];
    RestoredMoves(s, W5);
    OnlyXIsBad(s, W5);
    RestoredIsClosed(W5);
    forall i | 1 <= i <= 3
      ensures UnmetAt({"x"}, all, 1, i)
    {
      SentinelsStay(all, i);
      NothingAbove(Replay(all[..i]).pos, all[i].node, all[i].parent);
      forall n | n in BadAt({"x"}, all, 1, i)
        ensures !Met(Replay(all[..i]).pos, all[i].node, all[i].parent, n)
      {
        StillBad({"x"}, all, 1, i, n);
      }
    }
  }

  /** A wrong record need not do harm: here the position in the trash comes back too early, but nothing
      looks at it before the node is moved again. */
  lemma {:induction false} WrongRecordWithoutHarm() returns (s1: State, s7: State, s: State)
    ensures Goes(Start(map[]), X1, s1) && Goes(s1, TRASHED7, s7) && Goes(s7, BACK6, s) && Faithful(s)
    ensures VerdictOf(s, W5) == Moved && !RecordsOk(s.log, MovesOf(s.log), DestOf(s, W5))
    ensures NoneMet(s, W5) && Handled(s, W5) && Faithful(After(s, W5))
  {
    s1, s7, s := S1(), U7(), U6();
    ReachedRestored();
    RestoredHolds();
    RestoredMoves(s, W5);
    OnlyXIsBad(s, W5);
    XIsHealed(s, W5);
    XIsNotMet(s);
    NoneMetIsRight(s, W5);
    StaysFaithful(s, W5);
  }

  // ---- A wrong record that is met without harm ----

  const BELOW5 := Under("c", 5, "w", "x")

  /** x is in the trash, and both sentinels are at the top. */
  ghost predicate XInTrash(pos: map<string, PosKey>)
  {
    "x" in pos && pos["x"].list == TRASH && ROOT !in pos && TRASH !in pos
  }

  lemma {:induction false} UndoneForBelow5(s: State)
    requires Restored(s)
    ensures XInTrash(UndoneFor(s, BELOW5).pos)
  {
    var l := Positioned(s, BELOW5);
    RestoredMoves(s, BELOW5);
    assert UndoneFrom(l, s.log, 3) == l;
    assert UndoneFrom(l, s.log, 2) == Undo(l, "x", Some(BACK6.Key()));
    assert UndoneFrom(l, s.log, 1) == Undo(UndoneFrom(l, s.log, 2), "x", Some(TRASHED7.Key()));
  }

  lemma {:induction false} RedoneBelow5(l: Links, all: seq<Move>)
    requires XInTrash(l.pos) && all == [X1, BELOW5, BACK6, TRASHED7]
    ensures Decided(l.pos, "w", "x") && !Ancestor(l.pos, "w", "x") && RedoneTo(l, all, 1, 1) == l
    ensures forall i :: 2 <= i <= 3 ==> SentinelsOnTop(RedoneTo(l, all, 1, i).pos)
  {
    AncestorStep(l.pos, "w", "x");
    NothingAbove(l.pos, "w", TRASH);
    assert EndsAfter(l.pos, "x", 2);
    assert RedoneTo(l, all, 1, 2) == MoveTo(l, "w", BELOW5.Key());
    assert RedoneTo(l, all, 1, 3) == MoveTo(RedoneTo(l, all, 1, 2), "x", BACK6.Key());
  }

  ghost predicate SentinelsOnTop(pos: map<string, PosKey>)
  {
    ROOT !in pos && TRASH !in pos
  }

  /** The search that starts at x is on the wrong way, but the outcome is right. */
  lemma {:induction false} Below5IsRight(s: State)
    requires Restored(s)
    ensures SearchesRight(s, BELOW5) && !NoneMet(s, BELOW5)
  {
    var all, l := [X1, BELOW5, BACK6, TRASHED7], UndoneFor(s, BELOW5);
    RestoredMoves(s, BELOW5);
    OnlyXIsBad(s, BELOW5);
    RestoredIsClosed(BELOW5);
    UndoneForBelow5(s);
    RedoneBelow5(l, all);
    OnlyX1();
    assert all[..1] == [X1];
    var p := Replay(all[..1]).pos;
    AncestorStep(p, "w", "x");
    AncestorStep(p, "w", ROOT);
    forall i | 1 <= i <= 3
      ensures RightAt(l, all, 1, i)
    {
      if i > 1 {
        SentinelsStay(all, i);
        assert SentinelsOnTop(RedoneTo(l, all, 1, i).pos);
        NothingAbove(Replay(all[..i]).pos, all[i].node, all[i].parent);
        NothingAbove(RedoneTo(l, all, 1, i).pos, all[i].node, all[i].parent);
      }
    }
    assert MetAfter(p, "w", "x", "x", 0);
    assert !UnmetAt({"x"}, all, 1, 1);
  }

  /** Even a node undone wrongly that a search meets need not do harm, if the search comes out right. */
  lemma {:induction false} WrongRecordMetWithoutHarm() returns (s1: State, s7: State, s: State)
    ensures Goes(Start(map[]), X1, s1) && Goes(s1, TRASHED7, s7) && Goes(s7, BACK6, s) && Faithful(s)
    ensures VerdictOf(s, BELOW5) == Moved && Ready(MovesOf(s.log), BELOW5) && !NoneMet(s, BELOW5)
    ensures Handled(s, BELOW5) && Faithful(After(s, BELOW5))
  {
    s1, s7, s := S1(), U7(), U6();
    ReachedRestored();
    RestoredHolds();
    RestoredMoves(s, BELOW5);
    XIsHealed(s, BELOW5);
    Below5IsRight(s);
    StaysFaithful(s, BELOW5);
  }

  lemma {:induction false} ReachedRestored()
    ensures Goes(Start(map[]), X1, S1()) && Goes(S1(), TRASHED7, U7()) && Goes(U7(), BACK6, U6()) && Faithful(U6())
  {
    Step1();
    StepTrashed7();
    StepBack6();
    StartIsInOrder(map[]);
    TwoThenLate(Start(map[]), S1(), U7());
  }

  lemma {:induction false} TwoThenLate(s0: State, s1: State, s7: State)
    requires Faithful(s0) && s0.log == [] && Goes(s0, X1, s1) && Goes(s1, TRASHED7, s7)
    requires s1.log == [Record(X1, None)] && s7.log == [Record(X1, None), Record(TRASHED7, Some(X1.Key()))]
    ensures Faithful(After(s7, BACK6))
  {
    InOrderStep(s0, X1);
    InOrderStep(s1, TRASHED7);
    BackIsReady(s7);
    AnyOneLateMove(s7, MovesOf(s7.log), BACK6);
  }

  lemma {:induction false} BackIsReady(s: State)
    requires s.log == [Record(X1, None), Record(TRASHED7, Some(X1.Key()))]
    ensures Ready(MovesOf(s.log), BACK6) && LogFrom(s.log, MovesOf(s.log))
  {
    var ops := [X1, TRASHED7];
    assert MovesOf(s.log) == ops;
    DestIs(ops, 1, BACK6.id);
    LogFromItself(s.log);
    forall i | 0 <= i < |ops|
      ensures ParentKnown(ops, i)
    {
    }
  }

  // ---- Right searches are not enough ----

  const Y2 := Under("a", 2, "y", "x")
  const CYCLIC7 := Under("a", 7, "x", "y")
  const TRASHED4 := Under("b", 4, "x", TRASH)

  ghost function V2(): State
  {
    PutInFront(S1(), Y2)
  }

  ghost function V7(): State
  {
    After(V2(), CYCLIC7)
  }

  ghost function V4(): State
  {
    After(V7(), TRASHED4)
  }

  lemma {:induction false} StepY2()
    ensures Goes(S1(), Y2, V2())
  {
    var s := S1();
    assert VerdictOf(s, Y2) == Moved;
    AncestorStep(s.links.pos, "y", "x");
    AncestorStep(s.links.pos, "y", ROOT);
    InOrderAfter(s, Y2);
  }

  /** x is below the root and y below x: moving x below y has changed nothing. */
  ghost predicate CycleSkipped(s: State)
  {
    && s.links.pos == map["x" := X1.Key(), "y" := Y2.Key()] && ROOT in s.nodes && TRASH in s.nodes
    && s.log == [Record(X1, None), Record(Y2, None), Record(CYCLIC7, Some(X1.Key()))]
    && SiblingsOf(s.children, ROOT) == [Atom(X1.id, X1.ref)] && SiblingsOf(s.children, TRASH) == []
    && "b" !in s.seen && "c" !in s.seen
  }

  /** A move in order that would close a cycle records the position of its node all the same. */
  lemma {:induction false} StepCyclic7()
    ensures Goes(V2(), CYCLIC7, V7()) && CycleSkipped(V7())
  {
    var s := V2();
    assert VerdictOf(s, CYCLIC7) == Moved;
    AncestorStep(s.links.pos, "x", "y");
    NewestIsLast(s, CYCLIC7);
    assert s.log == [Record(X1, None)] + [Record(Y2, None)];
  }

  /** x is in the trash now, but the skipped move still has its old record. */
  ghost predicate StillRecorded(s: State)
  {
    && s.links.pos == map["x" := TRASHED4.Key(), "y" := Y2.Key()] && ROOT in s.nodes && "c" !in s.seen
    && s.log == [Record(X1, None), Record(Y2, None), Record(TRASHED4, Some(X1.Key())), Record(CYCLIC7, Some(X1.Key()))]
    && SiblingsOf(s.children, ROOT) == [Atom(X1.id, X1.ref)] && X1.Key() !in s.links.alive
  }

  /** Redoing the skipped move behind another move of its node. */
  lemma {:induction false} RedoCyclic7(l: Links)
    requires "y" in l.pos && l.pos["y"].list == "x"
    ensures MoveTo(l, "x", CYCLIC7.Key()).pos == l.pos
    ensures MoveTo(l, "x", CYCLIC7.Key()).alive.Keys <= l.alive.Keys && Ancestor(l.pos, "x", "y")
  {
    AncestorStep(l.pos, "x", "y");
  }

  lemma {:induction false} RedoBehindTrashed4(l: Links)
    requires l.pos == map["x" := X1.Key(), "y" := Y2.Key()]
    ensures
      var done := MoveTo(Undo(l, "x", Some(X1.Key())), "x", TRASHED4.Key());
      var redone := MoveTo(done, "x", CYCLIC7.Key());
      && Ancestor(done.pos, "x", "y") && redone.pos == map["x" := TRASHED4.Key(), "y" := Y2.Key()]
      && X1.Key() !in redone.alive
  {
    var undone := Undo(l, "x", Some(X1.Key()));
    NothingAbove(undone.pos, "x", TRASH);
    RedoCyclic7(MoveTo(undone, "x", TRASHED4.Key()));
  }

  lemma {:induction false} StepTrashed4(s: State)
    requires CycleSkipped(s)
    ensures VerdictOf(s, TRASHED4) == Moved && StillRecorded(After(s, TRASHED4))
  {
    assert VerdictOf(s, TRASHED4) == Moved;
    DestIs(MovesOf(s.log), 2, TRASHED4.id);
    LateByOne(s, TRASHED4);
    RedoBehindTrashed4(Positioned(s, TRASHED4));
  }

  lemma {:induction false} RecordedMoves(s: State)
    requires StillRecorded(s)
    ensures VerdictOf(s, W5) == Moved && MovesOf(s.log) == [X1, Y2, TRASHED4, CYCLIC7] && DestOf(s, W5) == 3
    ensures MovesOf(Filed(s, W5)) == [X1, Y2, TRASHED4, W5, CYCLIC7]
  {
    var ops := [X1, Y2, TRASHED4, CYCLIC7];
    assert MovesOf(s.log) == ops;
    DestIs(ops, 3, W5.id);
    FiledMoves(s, W5);
    assert Merged(ops, 3, W5) == [X1, Y2, TRASHED4, W5, CYCLIC7];
  }

  /** Undoing the skipped move takes x out of the trash, and nothing puts it back. */
  lemma {:induction false} OutOfTrash(s: State)
    requires StillRecorded(s)
    ensures "x" in After(s, W5).links.pos && After(s, W5).links.pos["x"] == X1.Key()
    ensures MovesOf(After(s, W5).log) == [X1, Y2, TRASHED4, W5, CYCLIC7]
  {
    RecordedMoves(s);
    LateByOne(s, W5);
    var undone := Undo(Positioned(s, W5), "x", Some(X1.Key()));
    NothingAbove(undone.pos, "w", ROOT);
    RedoCyclic7(MoveTo(undone, "w", W5.Key()));
    LogMoves(s, W5, 5);
  }

  /** Up to the late move the ordered replay has x in the trash, and y below x. */
  lemma {:induction false} OrderedTrashes()
    ensures Replay([X1, Y2, TRASHED4]).pos == map["x" := TRASHED4.Key(), "y" := Y2.Key()]
    ensures Replay([X1, Y2, TRASHED4, W5]).pos == map["x" := TRASHED4.Key(), "y" := Y2.Key(), "w" := W5.Key()]
  {
    OnlyX1();
    var p1 := Replay([X1]).pos;
    ReplaySnoc([X1], Y2);
    AncestorStep(p1, "y", "x");
    AncestorStep(p1, "y", ROOT);
    assert [X1] + [Y2] == [X1, Y2];
    var p2 := Replay([X1, Y2]).pos;
    ReplaySnoc([X1, Y2], TRASHED4);
    NothingAbove(p2, "x", TRASH);
    assert [X1, Y2] + [TRASHED4] == [X1, Y2, TRASHED4];
    var p3 := Replay([X1, Y2, TRASHED4]).pos;
    ReplaySnoc([X1, Y2, TRASHED4], W5);
    NothingAbove(p3, "w", ROOT);
    assert [X1, Y2, TRASHED4] + [W5] == [X1, Y2, TRASHED4, W5];
  }

  lemma {:induction false} RecordedIsReady(s: State)
    requires StillRecorded(s)
    ensures Ready(MovesOf(s.log), W5)
  {
    var ops := [X1, Y2, TRASHED4, CYCLIC7];
    RecordedMoves(s);
    forall i | 0 <= i < |ops|
      ensures ParentKnown(ops, i)
    {
      assert i > 0 ==> ops[..i][0] == X1;
      assert i > 1 ==> ops[..i][1] == Y2;
    }
  }

  lemma {:induction false} XIsUndoneWrongly(s: State)
    requires StillRecorded(s)
    ensures Bad(s, W5) == {"x"}
  {
    var ops := [X1, Y2, TRASHED4, CYCLIC7];
    RecordedMoves(s);
    OrderedTrashes();
    assert ops[..3] == [X1, Y2, TRASHED4] && ops[..3][0] == X1;
    assert FirstAt(ops, 3, "x") == 3 && !RecordOk(s.log, ops, 3, 3);
    forall n
      ensures n in Bad(s, W5) <==> n == "x"
    {
      BadNodeFirst(s.log, ops, 3, n);
    }
  }

  /** The search for x stops when it finds x, and the move of x is skipped. */
  lemma {:induction false} XIsSkipped(s: State)
    requires StillRecorded(s)
    ensures NoneMet(s, W5) && !AllHealed(s, W5)
  {
    var all := [X1, Y2, TRASHED4, W5, CYCLIC7];
    RecordedMoves(s);
    XIsUndoneWrongly(s);
    OrderedTrashes();
    assert all[..3] == [X1, Y2, TRASHED4] && all[..4] == [X1, Y2, TRASHED4, W5];
    var p3, p4 := Replay(all[..3]).pos, Replay(all[..4]).pos;
    NothingAbove(p3, "w", ROOT);
    AncestorStep(p4, "x", "y");
    StillBad({"x"}, all, 3, 4, "x");
    assert BadAt({"x"}, all, 3, 4) <= {"x"};
    assert UnmetAt({"x"}, all, 3, 3);
    FoundAtOnce(p4, "x", "y");
    assert UnmetAt({"x"}, all, 3, 4);
    assert !MovedAgain(all, 3, 5, "x");
  }

  lemma {:induction false} FoundAtOnce(pos: map<string, PosKey>, a: string, b: string)
    requires b in pos && pos[b].list == a
    ensures forall x :: Met(pos, a, b, x) ==> x == b
  {
    forall x, k: nat | MetAfter(pos, a, b, x, k)
      ensures x == b
    {
      assert k > 0 ==> Up(pos, b, 1) != Some(a);
    }
  }

  /** Undoing a skipped move is not always undoing nothing: its record can be older than other moves of its
      node. No search meets the node that this leaves out of place, so all searches come out right. But the
      move is skipped again, and what was moved to the trash is back, for good. */
  lemma {:induction false} SkippedMoveBringsBack() returns (s1: State, s2: State, s7: State, s: State)
    ensures Goes(Start(map[]), X1, s1) && Goes(s1, Y2, s2) && Goes(s2, CYCLIC7, s7) && Goes(s7, TRASHED4, s)
    ensures Faithful(s) && VerdictOf(s, W5) == Moved && Ready(MovesOf(s.log), W5)
    ensures NoneMet(s, W5) && SearchesRight(s, W5) && !AllHealed(s, W5) && !Faithful(After(s, W5))
    ensures "x" in s.links.pos && s.links.pos["x"].list == TRASH
    ensures "x" in After(s, W5).links.pos && After(s, W5).links.pos["x"].list == ROOT
  {
    s1, s2, s7, s := S1(), V2(), V7(), V4();
    ReachedRecorded();
    RecordedMoves(s);
    RecordedIsReady(s);
    XIsSkipped(s);
    NoneMetIsRight(s, W5);
    FaithfulExactly(s, W5);
    OutOfTrash(s);
  }

  lemma {:induction false} ReachedRecorded()
    ensures Goes(Start(map[]), X1, S1()) && Goes(S1(), Y2, V2()) && Goes(V2(), CYCLIC7, V7())
    ensures Goes(V7(), TRASHED4, V4()) && StillRecorded(V4()) && Faithful(V4())
  {
    Step1();
    StepY2();
    StepCyclic7();
    StepTrashed4(V7());
    RecordedIsFaithful();
  }

  lemma {:induction false} RecordedIsFaithful()
    ensures Faithful(V4())
  {
    Step1();
    StepY2();
    StepCyclic7();
    StartIsInOrder(map[]);
    FirstRecorded();
    ThreeThenLate(Start(map[]), S1(), V2(), V7());
  }

  lemma {:induction false} FirstRecorded()
    ensures S1().log == [Record(X1, None)] && V2().log == [Record(X1, None), Record(Y2, None)]
  {
    assert V2().log == S1().log + [Record(Y2, None)];
  }

  lemma {:induction false} ThreeThenLate(s0: State, s1: State, s2: State, s7: State)
    requires Faithful(s0) && s0.log == [] && Goes(s0, X1, s1) && Goes(s1, Y2, s2) && Goes(s2, CYCLIC7, s7)
    requires s1.log == [Record(X1, None)] && s2.log == [Record(X1, None), Record(Y2, None)]
    requires s7.log == [Record(X1, None), Record(Y2, None), Record(CYCLIC7, Some(X1.Key()))]
    ensures Faithful(After(s7, TRASHED4))
  {
    InOrderStep(s0, X1);
    InOrderStep(s1, Y2);
    InOrderStep(s2, CYCLIC7);
    TrashedIsReady(s7);
    AnyOneLateMove(s7, MovesOf(s7.log), TRASHED4);
  }

  lemma {:induction false} TrashedIsReady(s: State)
    requires s.log == [Record(X1, None), Record(Y2, None), Record(CYCLIC7, Some(X1.Key()))]
    ensures Ready(MovesOf(s.log), TRASHED4) && LogFrom(s.log, MovesOf(s.log))
  {
    var ops := [X1, Y2, CYCLIC7];
    assert MovesOf(s.log) == ops;
    DestIs(ops, 2, TRASHED4.id);
    LogFromItself(s.log);
    forall i | 0 <= i < |ops|
      ensures ParentKnown(ops, i)
    {
      assert i > 0 ==> ops[..i][0] == X1;
      assert i > 1 ==> ops[..i][1] == Y2;
    }
  }
}

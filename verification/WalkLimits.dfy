/** A tree whose walk never ends, reached from a new tree (backend/crdt/tree.go). */
module WalkLimits {
  import opened Crdt
  import opened Options
  import opened Rga
  import opened MoveTree
  import opened LateMove
  import opened Siblings
  import opened TreeSteps
  import opened TreeShape
  import opened TreeRuns
  import opened LateMoveLimits
  import TreeWalk

  const N1 := Under("a", 1, "n", TRASH)
  const ROOT2 := Under("a", 2, ROOT, "n")
  const N6 := Under("a", 6, "n", ROOT)
  const ROOT9 := Move(At("a", 9), ROOT, "n", At("a", 2))
  const ROOT5 := Under("b", 5, ROOT, TRASH)
  const W7 := Under("c", 7, "w", TRASH)

  ghost function R1(): State
  {
    PutInFront(Start(map[]), N1)
  }

  ghost function R2(): State
  {
    PutInFront(R1(), ROOT2)
  }

  ghost function R6(): State
  {
    After(R2(), N6)
  }

  ghost function R9(): State
  {
    After(R6(), ROOT9)
  }

  ghost function R5(): State
  {
    After(R9(), ROOT5)
  }

  /** The move goes ahead, no search goes on for ever, and it makes the one state of the other. */
  ghost predicate Integrates(s: State, m: Move, t: State)
  {
    Goes(s, m, t) && WalksEnd(s, m)
  }

  lemma {:induction false} OneSearch(s: State, m: Move)
    requires Newest(s.log, m.id) && Decided(s.links.pos, m.node, m.parent)
    ensures WalksEnd(s, m)
  {
    NewestIsLast(s, m);
    assert Filed(s, m)[|s.log|].move == m && WalkEnds(s, m, |s.log|);
  }

  lemma {:induction false} StepN1()
    ensures Integrates(Start(map[]), N1, R1())
  {
    var s := Start(map[]);
    assert VerdictOf(s, N1) == Moved;
    NothingAbove(s.links.pos, "n", TRASH);
    InOrderAfter(s, N1);
    OneSearch(s, N1);
  }

  lemma {:induction false} StepRoot2()
    ensures Integrates(R1(), ROOT2, R2())
  {
    var s := R1();
    assert VerdictOf(s, ROOT2) == Moved;
    AncestorStep(s.links.pos, ROOT, "n");
    NothingAbove(s.links.pos, ROOT, TRASH);
    InOrderAfter(s, ROOT2);
    assert EndsAfter(s.links.pos, "n", 2);
    OneSearch(s, ROOT2);
  }

  /** The root is below n, and n in the trash. */
  ghost predicate RootBelowN(s: State, key: PosKey)
  {
    && s.links.pos == map["n" := N1.Key(), ROOT := key]
    && "n" in s.nodes && ROOT in s.nodes && TRASH in s.nodes && "b" !in s.seen && "c" !in s.seen
    && SiblingsOf(s.children, TRASH) == [Atom(N1.id, N1.ref)] && NoneIsW(s.links.alive)
    && N1.Key() in s.links.alive && s.links.alive[N1.Key()] == "n"
  }

  ghost predicate NoneIsW(alive: map<PosKey, string>)
  {
    forall k :: k in alive ==> alive[k] != "w"
  }

  lemma {:induction false} FirstLog()
    ensures R2().log == [Record(N1, None), Record(ROOT2, None)]
  {
    assert R2().log == [Record(N1, None)] + [Record(ROOT2, None)];
  }

  /** n cannot go below the root, but its position is recorded. */
  lemma {:induction false} StepN6()
    ensures Integrates(R2(), N6, R6()) && RootBelowN(R6(), ROOT2.Key())
    ensures R6().log == [Record(N1, None), Record(ROOT2, None), Record(N6, Some(N1.Key()))]
    ensures SiblingsOf(R6().children, "n") == [Atom(ROOT2.id, ROOT2.ref)] && R6().seen == map["a" := N6.id]
  {
    var s := R2();
    assert VerdictOf(s, N6) == Moved;
    AncestorStep(s.links.pos, "n", ROOT);
    NewestIsLast(s, N6);
    FirstLog();
    OneSearch(s, N6);
  }

  lemma {:induction false} StepRoot9(s: State)
    requires RootBelowN(s, ROOT2.Key()) && SiblingsOf(s.children, "n") == [Atom(ROOT2.id, ROOT2.ref)]
    requires s.log == [Record(N1, None), Record(ROOT2, None), Record(N6, Some(N1.Key()))] && s.seen == map["a" := N6.id]
    ensures Integrates(s, ROOT9, After(s, ROOT9)) && RootBelowN(After(s, ROOT9), ROOT9.Key())
    ensures After(s, ROOT9).log == s.log + [Record(ROOT9, Some(ROOT2.Key()))]
  {
    assert VerdictOf(s, ROOT9) == Moved;
    AncestorStep(s.links.pos, ROOT, "n");
    NothingAbove(s.links.pos, ROOT, TRASH);
    NewestIsLast(s, ROOT9);
    assert EndsAfter(s.links.pos, "n", 2);
    OneSearch(s, ROOT9);
  }

  lemma {:induction false} UndoTwo(s: State, m: Move)
    requires |s.log| >= 2 && DestOf(s, m) == |s.log| - 2
    ensures
      var d := |s.log| - 2;
      var prev, last := s.log[d], s.log[d + 1];
      UndoneFor(s, m) == Undo(Undo(Positioned(s, m), last.move.node, last.oldPosition), prev.move.node, prev.oldPosition)
  {
    var l, n := Positioned(s, m), |s.log|;
    assert UndoneFrom(l, s.log, n) == l;
    assert UndoneFrom(l, s.log, n - 1) == Undo(l, s.log[n - 1].move.node, s.log[n - 1].oldPosition);
  }

  lemma {:induction false} FiledBehindTwo(s: State, m: Move)
    requires |s.log| >= 2 && DestOf(s, m) == |s.log| - 2
    ensures
      var d, all := |s.log| - 2, MovesOf(Filed(s, m));
      && all[d] == m && all[d + 1] == s.log[d].move && all[d + 2] == s.log[d + 1].move
      && Filed(s, m)[d + 1] == s.log[d] && Filed(s, m)[d + 2] == s.log[d + 1]
  {
  }

  /** The log after a late move with two newer moves in front of it. */
  lemma {:induction false} LogByTwo(s: State, m: Move)
    requires VerdictOf(s, m) == Moved && |s.log| >= 2 && DestOf(s, m) == |s.log| - 2
    ensures
      var d := |s.log| - 2;
      After(s, m).log == s.log[..d] + [Record(m, PositionIn(s.links.pos, m.node)),
                                       Refreshed(LinksAt(s, m, d + 1), s.log[d]),
                                       Refreshed(LinksAt(s, m, d + 2), s.log[d + 1])]
  {
    var d := |s.log| - 2;
    FiledBehindTwo(s, m);
    assert LogAt(s, m, d + 3)[d + 1] == Refreshed(LinksAt(s, m, d + 1), s.log[d]);
    assert LogAt(s, m, d + 3)[d + 2] == Refreshed(LinksAt(s, m, d + 2), s.log[d + 1]);
  }

  /** The links on the way. */
  lemma {:induction false} LateByTwo(s: State, m: Move)
    requires VerdictOf(s, m) == Moved && |s.log| >= 2 && DestOf(s, m) == |s.log| - 2
    ensures
      var d := |s.log| - 2;
      var prev, last := s.log[d].move, s.log[d + 1].move;
      && LinksAt(s, m, d) == UndoneFor(s, m)
      && LinksAt(s, m, d + 1) == MoveTo(LinksAt(s, m, d), m.node, m.Key())
      && LinksAt(s, m, d + 2) == MoveTo(LinksAt(s, m, d + 1), prev.node, prev.Key())
      && After(s, m).links == MoveTo(LinksAt(s, m, d + 2), last.node, last.Key())
  {
    var d := |s.log| - 2;
    FiledBehindTwo(s, m);
    LinksStep(s, m, d);
    LinksStep(s, m, d + 1);
    LinksStep(s, m, d + 2);
  }

  /** Once the root is in the trash n can go below it; the newest move of the root is skipped then. */
  ghost predicate NBelowRoot(s: State)
  {
    && s.links.pos == map["n" := N6.Key(), ROOT := ROOT5.Key()] && TRASH in s.nodes && "c" !in s.seen
    && s.log == [Record(N1, None), Record(ROOT2, None), Record(ROOT5, Some(ROOT9.Key())), Record(N6, Some(N1.Key())),
                 Record(ROOT9, Some(ROOT2.Key()))]
    && N6.Key() in s.links.alive && s.links.alive[N6.Key()] == "n" && NoneIsW(s.links.alive)
    && SiblingsOf(s.children, TRASH) == [Atom(ROOT5.id, ROOT5.ref), Atom(N1.id, N1.ref)]
  }

  /** n is at one position and the root at another, both alive. */
  ghost predicate TwoPlaced(l: Links, n: PosKey, root: PosKey)
  {
    && l.pos == map["n" := n, ROOT := root] && NoneIsW(l.alive)
    && n in l.alive && l.alive[n] == "n"
  }

  ghost function UndoneRoot5(l: Links): Links
  {
    Undo(Undo(l, ROOT, Some(ROOT2.Key())), "n", Some(N1.Key()))
  }

  lemma {:induction false} UndoRoot5(l: Links)
    requires l.pos == map["n" := N1.Key(), ROOT := ROOT9.Key()] && NoneIsW(l.alive)
    ensures TwoPlaced(UndoneRoot5(l), N1.Key(), ROOT2.Key())
  {
  }

  lemma {:induction false} RedoRoot5(undone: Links, done: Links, redone: Links, last: Links)
    requires TwoPlaced(undone, N1.Key(), ROOT2.Key()) && done == MoveTo(undone, ROOT, ROOT5.Key())
    requires redone == MoveTo(done, "n", N6.Key()) && last == MoveTo(redone, ROOT, ROOT9.Key())
    ensures TwoPlaced(last, N6.Key(), ROOT5.Key()) && done.pos["n" := N6.Key()] == last.pos
    ensures Decided(undone.pos, ROOT, TRASH) && Decided(done.pos, "n", ROOT) && Decided(redone.pos, ROOT, "n")
    ensures !Ancestor(done.pos, "n", ROOT) && Ancestor(redone.pos, ROOT, "n")
    ensures "n" in done.pos && done.pos["n"] == N1.Key()
  {
    NothingAbove(undone.pos, ROOT, TRASH);
    AncestorStep(done.pos, "n", ROOT);
    NothingAbove(done.pos, "n", TRASH);
    assert EndsAfter(done.pos, ROOT, 2);
    AncestorStep(redone.pos, ROOT, "n");
  }

  lemma {:induction false} Root5Moves(s: State)
    requires RootBelowN(s, ROOT9.Key()) && MovesOf(s.log) == [N1, ROOT2, N6, ROOT9]
    ensures VerdictOf(s, ROOT5) == Moved && DestOf(s, ROOT5) == 2
    ensures SiblingsOf(After(s, ROOT5).children, TRASH) == [Atom(ROOT5.id, ROOT5.ref), Atom(N1.id, N1.ref)]
  {
    assert VerdictOf(s, ROOT5) == Moved;
    DestIs([N1, ROOT2, N6, ROOT9], 2, ROOT5.id);
    InFront([Atom(N1.id, N1.ref)], Atom(ROOT5.id, ROOT5.ref));
  }

  lemma {:induction false} Root5Links(s: State)
    requires s.links.pos == map["n" := N1.Key(), ROOT := ROOT9.Key()] && NoneIsW(s.links.alive)
    requires VerdictOf(s, ROOT5) == Moved && DestOf(s, ROOT5) == 2 && |s.log| == 4
    requires s.log[2] == Record(N6, Some(N1.Key())) && s.log[3] == Record(ROOT9, Some(ROOT2.Key()))
    ensures TwoPlaced(After(s, ROOT5).links, N6.Key(), ROOT5.Key()) && WalksEnd(s, ROOT5)
    ensures After(s, ROOT5).log == s.log[..2] + [Record(ROOT5, Some(ROOT9.Key())), s.log[2], s.log[3]]
  {
    UndoTwo(s, ROOT5);
    LateByTwo(s, ROOT5);
    LogByTwo(s, ROOT5);
    UndoRoot5(Positioned(s, ROOT5));
    RedoRoot5(LinksAt(s, ROOT5, 2), LinksAt(s, ROOT5, 3), LinksAt(s, ROOT5, 4), After(s, ROOT5).links);
    SearchesRoot5(s);
  }

  lemma {:induction false} StepRoot5(s: State)
    requires RootBelowN(s, ROOT9.Key())
    requires s.log == [Record(N1, None), Record(ROOT2, None), Record(N6, Some(N1.Key())),
                       Record(ROOT9, Some(ROOT2.Key()))]
    ensures Integrates(s, ROOT5, After(s, ROOT5)) && NBelowRoot(After(s, ROOT5))
  {
    assert MovesOf(s.log) == [N1, ROOT2, N6, ROOT9];
    Root5Moves(s);
    Root5Links(s);
  }

  lemma {:induction false} SearchesRoot5(s: State)
    requires DestOf(s, ROOT5) == 2 && |s.log| == 4 && s.log[2].move == N6 && s.log[3].move == ROOT9
    requires Decided(LinksAt(s, ROOT5, 2).pos, ROOT, TRASH) && Decided(LinksAt(s, ROOT5, 3).pos, "n", ROOT)
    requires Decided(LinksAt(s, ROOT5, 4).pos, ROOT, "n")
    ensures WalksEnd(s, ROOT5)
  {
    var filed := Filed(s, ROOT5);
    assert filed[2].move == ROOT5 && filed[3] == s.log[2] && filed[4] == s.log[3];
    forall i | 2 <= i <= 4
      ensures WalkEnds(s, ROOT5, i)
    {
    }
  }

  ghost function UndoneW7(l: Links): Links
  {
    Undo(l, ROOT, Some(ROOT2.Key()))
  }

  /** Undoing the skipped move puts the root below n again, n being below the root, and nothing parts them. */
  lemma {:induction false} RedoW7(l: Links, done: Links, last: Links)
    requires l.pos == map["n" := N6.Key(), ROOT := ROOT5.Key()] && N6.Key() in l.alive && l.alive[N6.Key()] == "n"
    requires done == MoveTo(UndoneW7(l), "w", W7.Key()) && last == MoveTo(done, ROOT, ROOT9.Key())
    ensures EachOther(last)
  {
    NothingAbove(UndoneW7(l).pos, "w", TRASH);
    AncestorStep(done.pos, ROOT, "n");
  }

  /** n is below the root and the root below n. */
  ghost predicate EachOther(l: Links)
  {
    && "n" in l.pos && l.pos["n"].list == ROOT && AliveAt(l, "n")
    && ROOT in l.pos && l.pos[ROOT].list == "n" && AliveAt(l, ROOT)
  }

  lemma {:induction false} StepW7(s: State)
    requires NBelowRoot(s)
    ensures Integrates(s, W7, After(s, W7)) && EachOther(After(s, W7).links)
  {
    assert VerdictOf(s, W7) == Moved;
    DestIs(MovesOf(s.log), 4, W7.id);
    LateByOne(s, W7);
    RedoW7(Positioned(s, W7), MoveTo(UndoneW7(Positioned(s, W7)), "w", W7.Key()), After(s, W7).links);
    SearchesW7(s);
  }

  lemma {:induction false} SearchesW7(s: State)
    requires NBelowRoot(s) && DestOf(s, W7) == 4
    ensures WalksEnd(s, W7)
  {
    var l := Positioned(s, W7);
    assert UndoneFrom(l, s.log, 5) == l;
    assert LinksAt(s, W7, 4) == UndoneFor(s, W7) == Undo(l, ROOT, Some(ROOT2.Key()));
    NothingAbove(LinksAt(s, W7, 4).pos, "w", TRASH);
    LinksStep(s, W7, 4);
    assert Filed(s, W7)[4].move == W7 && Filed(s, W7)[5] == s.log[4];
    AncestorStep(LinksAt(s, W7, 5).pos, ROOT, "n");
    assert WalkEnds(s, W7, 4) && WalkEnds(s, W7, 5);
  }

  lemma {:induction false} AllShaped(s: State, m: Move, t: State)
    requires Shaped(s) && Goes(s, m, t)
    ensures Shaped(t)
  {
    StaysShaped(s, m);
  }

  lemma {:induction false} LoopsBack(s: State)
    requires EachOther(s.links)
    ensures Ancestor(TreeWalk.Live(s.links).pos, ROOT, ROOT)
  {
    var pos := TreeWalk.Live(s.links).pos;
    AncestorStep(pos, ROOT, "n");
    AncestorStep(pos, ROOT, ROOT);
  }

  ghost predicate SixMoves(s1: State, s2: State, s6: State, s9: State, s5: State, s: State)
  {
    && Integrates(Start(map[]), N1, s1) && Integrates(s1, ROOT2, s2) && Integrates(s2, N6, s6)
    && Integrates(s6, ROOT9, s9) && Integrates(s9, ROOT5, s5) && Integrates(s5, W7, s)
  }

  lemma {:induction false} SixMovesAreShaped(s1: State, s2: State, s6: State, s9: State, s5: State, s: State)
    requires SixMoves(s1, s2, s6, s9, s5, s)
    ensures Shaped(s)
  {
    StartIsShaped(map[]);
    AllShaped(Start(map[]), N1, s1);
    AllShaped(s1, ROOT2, s2);
    AllShaped(s2, N6, s6);
    AllShaped(s6, ROOT9, s9);
    AllShaped(s9, ROOT5, s5);
    AllShaped(s5, W7, s);
  }

  lemma {:induction false} FourMovesReached()
    ensures Integrates(R2(), N6, R6()) && Integrates(R6(), ROOT9, R9()) && RootBelowN(R9(), ROOT9.Key())
    ensures R9().log == [Record(N1, None), Record(ROOT2, None), Record(N6, Some(N1.Key())),
                         Record(ROOT9, Some(ROOT2.Key()))]
  {
    StepN6();
    StepRoot9(R6());
  }

  lemma {:induction false} SixMovesReached(s: State)
    requires s == After(R5(), W7)
    ensures SixMoves(R1(), R2(), R6(), R9(), R5(), s) && EachOther(s.links)
  {
    StepN1();
    StepRoot2();
    FourMovesReached();
    StepRoot5(R9());
    StepW7(R5());
  }

  /** A run of a new tree, every call of which returns, after which the root is below itself and the walk of
      the tree never ends. It takes a moved sentinel, and a skipped move with an old record. */
  lemma {:induction false} WalkNeedNotEnd()
    returns (s1: State, s2: State, s6: State, s9: State, s5: State, s: State)
    ensures SixMoves(s1, s2, s6, s9, s5, s)
    ensures Shaped(s) && Ancestor(TreeWalk.Live(s.links).pos, ROOT, ROOT)
    ensures forall k: nat :: !TreeWalk.EndsBy(TreeWalk.AllOf(s.children, s.links), k)
  {
    s1, s2, s6, s9, s5, s := R1(), R2(), R6(), R9(), R5(), After(R5(), W7);
    SixMovesReached(s);
    SixMovesAreShaped(s1, s2, s6, s9, s5, s);
    LoopsBack(s);
    forall k: nat
      ensures !TreeWalk.EndsBy(TreeWalk.AllOf(s.children, s.links), k)
    {
      TreeWalk.WalkNeverEnds(s, k);
    }
  }
}

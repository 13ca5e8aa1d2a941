/** What one call of `Integrate` is to do, told by the tree before and after it (backend/crdt/tree.go). */
module TreeCalls {
  import opened Crdt
  import opened Options
  import opened Rga
  import opened MoveTree
  import opened LateMove
  import opened Siblings
  import opened TreeSteps

  // ---- Which moves are taken ----

  /** The index just behind the last position called so. */
  ghost predicate StartsLast(s: seq<Atom>, ref: ID, from: nat)
  {
    StartsAt(s, ref, from) && (!IsRoot(ref) ==> forall j :: from <= j < |s| ==> s[j].id != ref)
  }

  /** The first alive position behind the reference holds the node. */
  ghost predicate HeldBehind(s: seq<Atom>, m: Move, alive: map<PosKey, string>)
  {
    exists from: nat, k: nat :: HeldAt(s, m, alive, from, k)
  }

  ghost predicate HeldAt(s: seq<Atom>, m: Move, alive: map<PosKey, string>, from: nat, k: nat)
  {
    && StartsLast(s, m.ref, from) && from <= k < |s|
    && PosKey(m.parent, s[k].id) in alive && alive[PosKey(m.parent, s[k].id)] == m.node
    && forall j :: from <= j < k ==> PosKey(m.parent, s[j].id) !in alive
  }

  /** What is the matter with a move that gets this answer. */
  ghost predicate Explains(st: Status, s: State, m: Move)
  {
    var list := SiblingsOf(s.children, m.parent);
    match st
    case EmptyNode => m.node == ""
    case UnderItself => m.node == m.parent
    case NoParent => m.parent !in s.nodes
    case NoRef => !KnowsRef(list, m.ref)
    case AlreadyThere => HeldBehind(list, m, s.links.alive)
    case OutOfDate => m.id.origin in s.seen && m.id.Less(s.seen[m.id.origin])
    case Duplicate => IsRoot(m.id) || Has(list, m.id)
    case Moved => true
  }

  /** The order in which things are checked. */
  function Rank(st: Status): nat
  {
    match st
    case EmptyNode => 0
    case UnderItself => 1
    case NoParent => 2
    case NoRef => 3
    case AlreadyThere => 4
    case OutOfDate => 5
    case Duplicate => 6
    case Moved => 7
  }

  /** The move names another node than its parent, the parent and the reference are known, the node is not there
      already, and the identifier is a new one. */
  ghost predicate Accepts(s: State, m: Move)
  {
    var list := SiblingsOf(s.children, m.parent);
    && m.node != "" && m.node != m.parent && m.parent in s.nodes && KnowsRef(list, m.ref)
    && !HeldBehind(list, m, s.links.alive)
    && (m.id.origin in s.seen ==> !m.id.Less(s.seen[m.id.origin]))
    && !IsRoot(m.id) && !Has(list, m.id)
  }

  /** The first thing that is the matter decides. */
  ghost predicate Answers(st: Status, s: State, m: Move)
  {
    Explains(st, s, m) && forall e :: Rank(e) < Rank(st) ==> !Explains(e, s, m)
  }

  lemma {:induction false} LastBehindIsLast(s: seq<Atom>, ref: ID)
    requires LastBehind(s, ref).Some?
    ensures forall j :: LastBehind(s, ref).value <= j < |s| ==> s[j].id != ref
  {
    if s[|s| - 1].id != ref {
      var init := s[..|s| - 1];
      LastBehindIsLast(init, ref);
      assert forall j :: 0 <= j < |init| ==> init[j] == s[j];
    }
  }

  lemma {:induction false} BehindStarts(s: seq<Atom>, ref: ID, from: nat)
    requires KnowsRef(s, ref)
    ensures StartsLast(s, ref, from) <==> Behind(s, ref) == Some(from)
  {
    if !IsRoot(ref) {
      LastBehindIsLast(s, ref);
    }
  }

  lemma {:induction false} IsThereMeans(s: seq<Atom>, m: Move, alive: map<PosKey, string>)
    requires KnowsRef(s, m.ref)
    ensures IsThere(s, m, alive) <==> HeldBehind(s, m, alive)
  {
    var from := Behind(s, m.ref).value;
    var k := FirstAlive(s, m.parent, alive, from);
    BehindStarts(s, m.ref, from);
    if IsThere(s, m, alive) {
      assert HeldAt(s, m, alive, from, k);
    }
    if HeldBehind(s, m, alive) {
      var f: nat, i: nat :| HeldAt(s, m, alive, f, i);
      BehindStarts(s, m.ref, f);
      assert i == k;
    }
  }

  /** The checks, made in this order, take exactly these moves. */
  lemma {:induction false} VerdictMeans(s: State, m: Move)
    ensures Answers(VerdictOf(s, m), s, m)
    ensures VerdictOf(s, m) == Moved <==> Accepts(s, m)
  {
    var list := SiblingsOf(s.children, m.parent);
    if KnowsRef(list, m.ref) {
      IsThereMeans(list, m, s.links.alive);
    }
  }

  // ---- What a call does ----

  /** The move stands behind all smaller moves at the end of which it belongs, and in front of the others. */
  ghost predicate FiledAt(log: seq<Record>, log': seq<Record>, m: Move, d: nat)
  {
    && d <= |log| && MovesOf(log') == MovesOf(log)[..d] + [m] + MovesOf(log)[d..]
    && (d > 0 ==> log[d - 1].move.id.Less(m.id)) && (forall i :: d <= i < |log| ==> !log[i].move.id.Less(m.id))
    && log'[..d] == log[..d]
  }

  /** The new position is in the first gap behind its reference whose right neighbour is smaller. */
  ghost predicate SplicedIn(s: seq<Atom>, s': seq<Atom>, a: Atom)
  {
    exists from: nat, k: nat :: SplicedAt(s, s', a, from, k)
  }

  ghost predicate SplicedAt(s: seq<Atom>, s': seq<Atom>, a: Atom, from: nat, k: nat)
  {
    StartsLast(s, a.ref, from) && IsGap(s, from, k, a.id) && s' == s[..k] + [a] + s[k..]
  }

  /** The node is at the position, the one it was at is dead, and nothing else has changed. */
  ghost predicate Placed(l: Links, l': Links, node: string, key: PosKey)
  {
    && l'.pos == l.pos[node := key]
    && (forall k :: k in l'.alive <==> k == key || (k in l.alive && !(node in l.pos && l.pos[node] == k)))
    && (forall k :: k in l'.alive ==> l'.alive[k] == if k == key then node else l.alive[k])
  }

  /** A node above its new parent stays where it is, and the new position is dead. */
  ghost predicate GoesOrStays(l: Links, l': Links, node: string, key: PosKey)
  {
    if Ancestor(l.pos, node, key.list) then l' == Links(l.pos, l.alive - {key}) else Placed(l, l', node, key)
  }

  /** The node is back at the position recorded, or dead where it is if none was. */
  ghost predicate TakenBack(l: Links, l': Links, rec: Record)
  {
    var n, prior := rec.move.node, rec.oldPosition;
    && l'.pos == (if prior.Some? then l.pos[n := prior.value] else l.pos)
    && (forall k :: k in l'.alive <==> prior == Some(k) || (k in l.alive && !(n in l.pos && l.pos[n] == k)))
    && (forall k :: k in l'.alive ==> l'.alive[k] == if prior == Some(k) then n else l.alive[k])
  }

  /** Greater moves are taken back, newest first. */
  ghost predicate TakesBack(s: State, m: Move, d: nat, us: seq<Links>)
  {
    && d <= |s.log| && |us| == |s.log| - d + 1 && us[0] == s.links.(alive := s.links.alive[m.Key() := m.node])
    && forall i :: 0 <= i < |s.log| - d ==> TakenBack(us[i], us[i + 1], s.log[|s.log| - 1 - i])
  }

  /** From the new move on all moves are made, oldest first. One that goes through records where its node was. */
  ghost predicate MakesMoves(s: State, s': State, m: Move, d: nat, ls: seq<Links>)
  {
    && d <= |s.log| == |s'.log| - 1 && |ls| == |s.log| - d + 2 && ls[|ls| - 1] == s'.links
    && forall i :: 0 <= i <= |s.log| - d ==> MakesMove(s, s', m, d, ls, i)
  }

  ghost predicate MakesMove(s: State, s': State, m: Move, d: nat, ls: seq<Links>, i: nat)
    requires d + i <= |s.log| == |s'.log| - 1 && |ls| == |s.log| - d + 2
  {
    var rec := s'.log[d + i];
    && GoesOrStays(ls[i], ls[i + 1], rec.move.node, rec.move.Key())
    && rec.oldPosition ==
       if i == 0 then PositionIn(s.links.pos, m.node)
       else if Ancestor(ls[i].pos, rec.move.node, rec.move.parent) then s.log[d + i - 1].oldPosition
       else PositionIn(ls[i].pos, rec.move.node)
  }

  ghost predicate Reorders(s: State, s': State, m: Move, d: nat)
  {
    exists us, ls :: TakesBack(s, m, d, us) && MakesMoves(s, s', m, d, ls) && us[|us| - 1] == ls[0]
  }

  /** The move is in the log and in the list of its parent. Greater moves are taken back and made again. */
  ghost predicate Takes(s: State, s': State, m: Move)
  {
    var list, list' := SiblingsOf(s.children, m.parent), SiblingsOf(s'.children, m.parent);
    && (exists d :: FiledAt(s.log, s'.log, m, d) && Reorders(s, s', m, d))
    && (Distinct(list) ==> SplicedIn(list, list', Atom(m.id, m.ref)))
    && (forall p :: p != m.parent ==> SiblingsOf(s'.children, p) == SiblingsOf(s.children, p))
    && s'.nodes == s.nodes + {m.node} && s'.seen == s.seen[m.id.origin := m.id]
  }

  lemma {:induction false} NothingTakenBack(s: State, s': State, m: Move, us: seq<Links>, ls: seq<Links>)
    requires TakesBack(s, m, |s.log|, us) && MakesMoves(s, s', m, |s.log|, ls) && us[|us| - 1] == ls[0]
    requires s'.log[|s.log|].move == m
    ensures s'.log[|s.log|] == Record(m, PositionIn(s.links.pos, m.node))
    ensures GoesOrStays(s.links, s'.links, m.node, m.Key())
  {
    assert MakesMove(s, s', m, |s.log|, ls, 0);
    EarlyAlive(s.links, ls[0], s'.links, m.node, m.Key());
  }

  lemma {:induction false} NewestFiledLast(log: seq<Record>, log': seq<Record>, m: Move, d: nat)
    requires FiledAt(log, log', m, d) && Newest(log, m.id)
    ensures d == |log| && |log'| == |log| + 1
    ensures log' == log + [log'[|log|]] && log'[|log|].move == m
  {
    assert |MovesOf(log')| == |log| + 1 && MovesOf(log')[d] == m;
    assert log' == log'[..|log|] + [log'[|log|]];
  }

  /** In order the node goes there at once, unless it is above its new parent. */
  lemma {:induction false} InOrderGoes(s: State, s': State, m: Move)
    requires Takes(s, s', m) && Newest(s.log, m.id)
    ensures s'.log == s.log + [Record(m, PositionIn(s.links.pos, m.node))]
    ensures GoesOrStays(s.links, s'.links, m.node, m.Key())
  {
    var d :| FiledAt(s.log, s'.log, m, d) && Reorders(s, s', m, d);
    NewestFiledLast(s.log, s'.log, m, d);
    var us, ls :| TakesBack(s, m, d, us) && MakesMoves(s, s', m, d, ls) && us[|us| - 1] == ls[0];
    NothingTakenBack(s, s', m, us, ls);
  }

  /** A position that is alive early makes no difference to the move made for it. */
  lemma {:induction false} EarlyAlive(l: Links, early: Links, l': Links, node: string, key: PosKey)
    requires early == l.(alive := l.alive[key := node]) && GoesOrStays(early, l', node, key)
    ensures GoesOrStays(l, l', node, key)
  {
    assert l.alive[key := node] - {key} == l.alive - {key};
  }

  /** Log, links and lists stay as they were. A node named too late is heard of all the same, and so is the
      identifier of a duplicate. */
  ghost predicate Refuses(s: State, s': State, m: Move, st: Status)
  {
    && s'.log == s.log && s'.links == s.links
    && (forall p :: SiblingsOf(s'.children, p) == SiblingsOf(s.children, p))
    && s'.nodes == (if st == OutOfDate || st == Duplicate then s.nodes + {m.node} else s.nodes)
    && s'.seen == if st == Duplicate then s.seen[m.id.origin := m.id] else s.seen
  }

  lemma {:induction false} DestStops(ops: seq<Move>, id: ID)
    ensures Dest(ops, id) > 0 ==> ops[Dest(ops, id) - 1].id.Less(id)
    ensures forall i :: Dest(ops, id) <= i < |ops| ==> !ops[i].id.Less(id)
  {
    if ops != [] && !ops[|ops| - 1].id.Less(id) {
      var init := ops[..|ops| - 1];
      DestStops(init, id);
      assert forall i :: 0 <= i < |init| ==> init[i] == ops[i];
    }
  }

  lemma {:induction false} SmallerKept(s: State, m: Move, log': seq<Record>)
    requires log' == LogAt(s, m, |s.log| + 1)
    ensures log'[..DestOf(s, m)] == s.log[..DestOf(s, m)]
  {
    var d := DestOf(s, m);
    forall i | 0 <= i < d
      ensures log'[i] == s.log[i]
    {
      RecordAt(s, m, i);
    }
  }

  lemma {:induction false} MovesMerged(s: State, m: Move, log': seq<Record>)
    requires log' == LogAt(s, m, |s.log| + 1)
    ensures MovesOf(log') == MovesOf(s.log)[..DestOf(s, m)] + [m] + MovesOf(s.log)[DestOf(s, m)..]
  {
    FiledMoves(s, m);
    LogMoves(s, m, |s.log| + 1);
  }

  lemma {:induction false} FiledInPlace(s: State, m: Move, s': State)
    requires s' == Integrated(s, m)
    ensures FiledAt(s.log, s'.log, m, DestOf(s, m))
  {
    var ops := MovesOf(s.log);
    DestStops(ops, m.id);
    MovesMerged(s, m, s'.log);
    SmallerKept(s, m, s'.log);
    assert forall i :: 0 <= i < |s.log| ==> ops[i] == s.log[i].move;
  }

  lemma {:induction false} UndoTakesBack(l: Links, rec: Record)
    ensures TakenBack(l, Undo(l, rec.move.node, rec.oldPosition), rec)
  {
  }

  lemma {:induction false} MoveGoesOrStays(l: Links, node: string, key: PosKey)
    ensures GoesOrStays(l, MoveTo(l, node, key), node, key)
  {
  }

  /** The links on the way back. */
  ghost function Backs(s: State, m: Move): (us: seq<Links>)
    ensures |us| == |s.log| - DestOf(s, m) + 1
  {
    seq(|s.log| - DestOf(s, m) + 1, i requires 0 <= i <= |s.log| - DestOf(s, m) =>
      UndoneFrom(Positioned(s, m), s.log, |s.log| - i))
  }

  /** The links on the way forth. */
  ghost function Forths(s: State, m: Move): (ls: seq<Links>)
    ensures |ls| == |s.log| - DestOf(s, m) + 2
  {
    seq(|s.log| - DestOf(s, m) + 2, i requires 0 <= i <= |s.log| - DestOf(s, m) + 1 => LinksAt(s, m, DestOf(s, m) + i))
  }

  lemma {:induction false} GoesBack(s: State, m: Move)
    ensures TakesBack(s, m, DestOf(s, m), Backs(s, m))
  {
    var us, n := Backs(s, m), |s.log|;
    assert us[0] == UndoneFrom(Positioned(s, m), s.log, n) == Positioned(s, m);
    forall i | 0 <= i < n - DestOf(s, m)
      ensures TakenBack(us[i], us[i + 1], s.log[n - 1 - i])
    {
      UndoTakesBack(us[i], s.log[n - 1 - i]);
      assert us[i + 1] == UndoneFrom(Positioned(s, m), s.log, n - 1 - i);
    }
  }

  lemma {:induction false} GoesForth(s: State, s': State, m: Move, i: nat)
    requires s' == Integrated(s, m) && DestOf(s, m) + i <= |s.log|
    ensures MakesMove(s, s', m, DestOf(s, m), Forths(s, m), i)
  {
    var j, ls := DestOf(s, m) + i, Forths(s, m);
    var next := MovesOf(Filed(s, m))[j];
    RecordAt(s, m, j);
    LinksStep(s, m, j);
    MoveGoesOrStays(ls[i], next.node, next.Key());
    assert i > 0 ==> Filed(s, m)[j] == s.log[j - 1];
  }

  lemma {:induction false} TurnsRound(s: State, s': State, m: Move, us: seq<Links>, ls: seq<Links>)
    requires s' == Integrated(s, m) && us == Backs(s, m) && ls == Forths(s, m)
    ensures us[|us| - 1] == ls[0] && ls[|ls| - 1] == s'.links
  {
    assert us[|s.log| - DestOf(s, m)] == UndoneFor(s, m);
    assert ls[0] == LinksAt(s, m, DestOf(s, m));
  }

  lemma {:induction false} GoesBackAndForth(s: State, s': State, m: Move, d: nat)
    requires s' == Integrated(s, m) && d == DestOf(s, m)
    ensures Reorders(s, s', m, d)
  {
    var us, ls := Backs(s, m), Forths(s, m);
    GoesBack(s, m);
    TurnsRound(s, s', m, us, ls);
    forall i | 0 <= i <= |s.log| - d
      ensures MakesMove(s, s', m, d, ls, i)
    {
      GoesForth(s, s', m, i);
    }
  }

  lemma {:induction false} ListTakes(s: seq<Atom>, a: Atom)
    requires Distinct(s) && KnowsRef(s, a.ref)
    ensures SplicedIn(s, Insert(s, a), a)
  {
    var from, k := InsertSplits(s, a);
    assert SplicedAt(s, Insert(s, a), a, from, k);
  }

  lemma {:induction false} TakenMeans(s: State, s': State, m: Move)
    requires s' == Integrated(s, m) && KnowsRef(SiblingsOf(s.children, m.parent), m.ref)
    ensures Takes(s, s', m)
  {
    var list := SiblingsOf(s.children, m.parent);
    FiledInPlace(s, m, s');
    GoesBackAndForth(s, s', m, DestOf(s, m));
    if Distinct(list) {
      ListTakes(list, Atom(m.id, m.ref));
    }
  }

  lemma {:induction false} RefusedMeans(s: State, m: Move)
    requires VerdictOf(s, m) != Moved
    ensures Refuses(s, After(s, m), m, VerdictOf(s, m))
  {
  }

  lemma {:induction false} CallMeans(s: State, m: Move)
    ensures Accepts(s, m) ==> Takes(s, After(s, m), m)
    ensures !Accepts(s, m) ==> Refuses(s, After(s, m), m, VerdictOf(s, m))
  {
    VerdictMeans(s, m);
    if Accepts(s, m) {
      TakenMeans(s, After(s, m), m);
    } else {
      RefusedMeans(s, m);
    }
  }
}

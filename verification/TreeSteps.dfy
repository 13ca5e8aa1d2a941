/** What each call of `Integrate` makes of a tree (backend/crdt/tree.go), and which calls keep the
    tree equal to the ordered replay of its moves. Class `Tree` in module `Trees` computes it. */
module TreeSteps {
  import opened Crdt
  import opened Options
  import opened Rga
  import opened MoveTree
  import opened LateMove
  import opened Siblings

  datatype Status =
    Moved | AlreadyThere | EmptyNode | UnderItself | NoParent | NoRef | OutOfDate | Duplicate

  /** The nodes heard of, the list of children of each node, the links, the log of moves and what
      the vector clock has seen. */
  datatype State = State(nodes: set<string>, children: map<string, seq<Atom>>, links: Links,
                         log: seq<Record>, seen: map<string, ID>)

  ghost function Start(seen: map<string, ID>): State
  {
    State({ROOT, TRASH}, map[ROOT := [], TRASH := []], Links(map[], map[]), [], seen)
  }

  // ---- The checks in front of a move ----

  /** Where an insert behind `ref` starts scanning. */
  function Behind(s: seq<Atom>, ref: ID): (r: Option<nat>)
    ensures r == None <==> !KnowsRef(s, ref)
    ensures r.Some? ==> StartsAt(s, ref, r.value) && r.value <= |s|
  {
    if IsRoot(ref) then Some(0) else LastBehind(s, ref)
  }

  function LastBehind(s: seq<Atom>, ref: ID): (r: Option<nat>)
    ensures r == None <==> !Has(s, ref)
    ensures r.Some? ==> 1 <= r.value <= |s| && s[r.value - 1].id == ref
  {
    if s == [] then None
    else if s[|s| - 1].id == ref then Some(|s|)
    else
      assert forall i :: 0 <= i < |s| - 1 ==> s[..|s| - 1][i] == s[i];
      LastBehind(s[..|s| - 1], ref)
  }

  /** The index of the first alive position of a list, or its length. */
  function FirstAlive(s: seq<Atom>, list: string, alive: map<PosKey, string>, from: nat): (k: nat)
    requires from <= |s|
    ensures from <= k <= |s|
    ensures forall j :: from <= j < k ==> PosKey(list, s[j].id) !in alive
    ensures k < |s| ==> PosKey(list, s[k].id) in alive
    decreases |s| - from
  {
    if from == |s| || PosKey(list, s[from].id) in alive then from
    else FirstAlive(s, list, alive, from + 1)
  }

  function AliveBehind(s: seq<Atom>, list: string, alive: map<PosKey, string>, from: nat): (r: Option<PosKey>)
    requires from <= |s|
    ensures r.Some? ==> r.value in alive && r.value.list == list
  {
    var k := FirstAlive(s, list, alive, from);
    if k < |s| then Some(PosKey(list, s[k].id)) else None
  }

  /** The alive position behind the reference holds the node already. */
  ghost predicate IsThere(s: seq<Atom>, m: Move, alive: map<PosKey, string>)
    requires Behind(s, m.ref).Some?
  {
    var next := AliveBehind(s, m.parent, alive, Behind(s, m.ref).value);
    next.Some? && alive[next.value] == m.node
  }

  /** What the checks decide, in the order they are made. */
  ghost function VerdictOf(s: State, m: Move): Status
  {
    var list := SiblingsOf(s.children, m.parent);
    if m.node == "" then EmptyNode
    else if m.node == m.parent then UnderItself
    else if m.parent !in s.nodes then NoParent
    else if Behind(list, m.ref) == None then NoRef
    else if IsThere(list, m, s.links.alive) then AlreadyThere
    else if m.id.origin in s.seen && m.id.Less(s.seen[m.id.origin]) then OutOfDate
    else if IsRoot(m.id) || LastBehind(list, m.id).Some? then Duplicate
    else Moved
  }

  // ---- One call ----

  ghost function WithList(s: State, parent: string): State
  {
    s.(children := s.children[parent := SiblingsOf(s.children, parent)])
  }

  ghost function WithNode(s: State, m: Move): State
  {
    WithList(s, m.parent).(nodes := s.nodes + {m.node})
  }

  /** The position made for the move is alive before the node is linked to it. */
  ghost function Positioned(s: State, m: Move): Links
  {
    s.links.(alive := s.links.alive[m.Key() := m.node])
  }

  ghost function DestOf(s: State, m: Move): (d: nat)
    ensures d <= |s.log|
  {
    Dest(MovesOf(s.log), m.id)
  }

  /** The log with the move filed, and with it the position its node has when the move arrives. */
  ghost function Filed(s: State, m: Move): (log: seq<Record>)
    ensures |log| == |s.log| + 1
  {
    s.log[..DestOf(s, m)] + [Record(m, PositionIn(s.links.pos, m.node))] + s.log[DestOf(s, m)..]
  }

  ghost function UndoneFor(s: State, m: Move): Links
  {
    UndoneFrom(Positioned(s, m), s.log, DestOf(s, m))
  }

  /** The links in front of the `i`-th move, the first one redone being the new one. */
  ghost function LinksAt(s: State, m: Move, i: nat): Links
    requires DestOf(s, m) <= i <= |s.log| + 1
  {
    RedoneTo(UndoneFor(s, m), MovesOf(Filed(s, m)), DestOf(s, m), i)
  }

  /** Redoing a move that goes through records the position its node has at that time. */
  ghost function Refreshed(l: Links, rec: Record): Record
  {
    if Ancestor(l.pos, rec.move.node, rec.move.parent) then rec
    else rec.(oldPosition := PositionIn(l.pos, rec.move.node))
  }

  ghost function RefreshedAt(s: State, m: Move, i: nat, j: nat): Record
    requires j < |s.log| + 1 && i <= |s.log| + 1
  {
    if DestOf(s, m) < j < i then Refreshed(LinksAt(s, m, j), Filed(s, m)[j]) else Filed(s, m)[j]
  }

  /** The log once the moves before the `i`-th are redone. */
  ghost function LogAt(s: State, m: Move, i: nat): (log: seq<Record>)
    requires i <= |s.log| + 1
    ensures |log| == |s.log| + 1
  {
    seq(|s.log| + 1, j requires 0 <= j < |s.log| + 1 => RefreshedAt(s, m, i, j))
  }

  ghost function Integrated(s: State, m: Move): State
  {
    State(s.nodes + {m.node},
          s.children[m.parent := Insert(SiblingsOf(s.children, m.parent), Atom(m.id, m.ref))],
          LinksAt(s, m, |s.log| + 1), LogAt(s, m, |s.log| + 1), s.seen[m.id.origin := m.id])
  }

  ghost function After(s: State, m: Move): State
  {
    match VerdictOf(s, m)
    case EmptyNode => s
    case UnderItself => s
    case NoParent => s
    case NoRef => WithList(s, m.parent)
    case AlreadyThere => WithList(s, m.parent)
    case OutOfDate => WithNode(s, m)
    case Duplicate => WithNode(s, m).(seen := s.seen[m.id.origin := m.id])
    case Moved => Integrated(s, m)
  }

  /** Every search for an ancestor made while the move is integrated comes to an end. */
  ghost predicate WalksEnd(s: State, m: Move)
  {
    forall i :: DestOf(s, m) <= i <= |s.log| ==> WalkEnds(s, m, i)
  }

  ghost predicate WalkEnds(s: State, m: Move, i: nat)
    requires DestOf(s, m) <= i <= |s.log|
  {
    Decided(LinksAt(s, m, i).pos, Filed(s, m)[i].move.node, Filed(s, m)[i].move.parent)
  }

  // ---- What the tree should be ----

  ghost predicate NodesKnown(nodes: set<string>, ops: seq<Move>)
  {
    forall i :: 0 <= i < |ops| ==> ops[i].node in nodes
  }

  ghost predicate ParentsKnown(parents: set<string>, ops: seq<Move>)
  {
    forall i :: 0 <= i < |ops| ==> ops[i].parent in parents
  }

  /** The tree knows all nodes mentioned by its moves. */
  ghost predicate Present(nodes: set<string>, parents: set<string>, ops: seq<Move>)
  {
    {ROOT, TRASH} <= parents <= nodes && NodesKnown(nodes, ops) && ParentsKnown(parents, ops)
  }

  /** The tree is what replaying all its moves in identifier order leads to. */
  ghost predicate Faithful(s: State)
  {
    var ops := MovesOf(s.log);
    && Ordered(ops) && NotUnderItself(ops)
    && s.links == Replay(ops)
    && ListsFollow(s.children, ops)
    && Present(s.nodes, s.children.Keys, ops)
    && OwnRecords(s.log, ops)
  }

  /** The identifier is greater than all integrated so far. */
  ghost predicate Newest(log: seq<Record>, id: ID)
  {
    log == [] || log[|log| - 1].move.id.Less(id)
  }

  /** A late move is fresh and causally ready in its turn, and sentinels are left alone. */
  ghost predicate Ready(ops: seq<Move>, m: Move)
  {
    && (forall i :: 0 <= i < |ops| ==> ops[i].id != m.id)
    && Closed(ops) && !Sentinel(m.node) && m.parent in Known(ops[..Dest(ops, m.id)])
    && KnowsRef(AtomsOf(ops[..Dest(ops, m.id)], m.parent), m.ref)
  }

  /** The nodes that undoing for the move does not lead back to where the smaller moves put them. */
  ghost function Bad(s: State, m: Move): set<string>
  {
    BadNodes(s.log, MovesOf(s.log), DestOf(s, m))
  }

  /** Every search made while the move is integrated ends, and comes out as in the ordered replay. */
  ghost predicate SearchesRight(s: State, m: Move)
  {
    forall i :: DestOf(s, m) <= i <= |s.log| ==> RightAt(UndoneFor(s, m), MovesOf(Filed(s, m)), DestOf(s, m), i)
  }

  /** In the ordered replay no search made from the late move on meets a node that is bad then. */
  ghost predicate NoneMet(s: State, m: Move)
  {
    forall i :: DestOf(s, m) <= i <= |s.log| ==> UnmetAt(Bad(s, m), MovesOf(Filed(s, m)), DestOf(s, m), i)
  }

  /** Every bad node has a move, from the late one on, that goes through in the ordered replay. */
  ghost predicate AllHealed(s: State, m: Move)
  {
    forall n :: n in Bad(s, m) ==> MovedAgain(MovesOf(Filed(s, m)), DestOf(s, m), |s.log| + 1, n)
  }

  /** A move in order, or a late one that is ready and whose searches come out right. */
  ghost predicate Sheltered(s: State, m: Move)
  {
    !Newest(s.log, m.id) ==> Ready(MovesOf(s.log), m) && SearchesRight(s, m)
  }

  /** A move in order, or a late one that does no harm. */
  ghost predicate Handled(s: State, m: Move)
  {
    Sheltered(s, m) && (!Newest(s.log, m.id) ==> AllHealed(s, m))
  }

  lemma {:induction false} FiledMoves(s: State, m: Move)
    ensures MovesOf(Filed(s, m)) == Merged(MovesOf(s.log), DestOf(s, m), m)
  {
  }

  lemma {:induction false} LogMoves(s: State, m: Move, i: nat)
    requires i <= |s.log| + 1
    ensures MovesOf(LogAt(s, m, i)) == MovesOf(Filed(s, m))
  {
  }

  // ---- A move in order ----

  lemma {:induction false} NewestIsOrdered(ops: seq<Move>, m: Move)
    requires Ordered(ops) && NotUnderItself(ops) && m.node != m.parent
    requires ops != [] ==> ops[|ops| - 1].id.Less(m.id)
    ensures Ordered(ops + [m]) && NotUnderItself(ops + [m])
  {
    var all := ops + [m];
    forall i, j | 0 <= i < j < |all|
      ensures Precedes(all, i, j)
    {
      if j < |ops| {
        assert Precedes(ops, i, j);
      } else if i < |ops| - 1 {
        assert Precedes(ops, i, |ops| - 1);
        IdTransitive(ops[i].id, ops[|ops| - 1].id, m.id);
      }
    }
  }

  /** A position that is alive early makes no difference to the move made for it. */
  lemma {:induction false} AliveEarly(l: Links, r: Links, m: Move)
    requires AliveIsCurrent(r) && m.Key() !in r.alive && l == r.(alive := r.alive[m.Key() := m.node])
    ensures MoveTo(l, m.node, m.Key()) == MoveTo(r, m.node, m.Key())
  {
    if Ancestor(r.pos, m.node, m.parent) {
      assert r.alive[m.Key() := m.node] - {m.Key()} == r.alive - {m.Key()};
    } else {
      assert MoveTo(l, m.node, m.Key()).alive == MoveTo(r, m.node, m.Key()).alive;
    }
  }

  /** A move newer than all others: nothing to undo. */
  lemma {:induction false} InOrder(l: Links, ops: seq<Move>, m: Move)
    requires Ordered(ops) && NotUnderItself(ops) && m.node != m.parent
    requires ops != [] ==> ops[|ops| - 1].id.Less(m.id)
    requires l == Replay(ops).(alive := Replay(ops).alive[m.Key() := m.node])
    ensures Ordered(ops + [m]) && NotUnderItself(ops + [m])
    ensures Grounded(l.pos, m.parent)
    ensures MoveTo(l, m.node, m.Key()) == Replay(ops + [m])
  {
    var all := ops + [m];
    assert all[..|ops|] == ops && all[|ops|] == m;
    NewestIsOrdered(ops, m);
    ReplayInvariant(ops);
    NewKeyIsDead(all, |ops|);
    AliveEarly(l, Replay(ops), m);
  }

  lemma {:induction false} NewestIsLast(s: State, m: Move)
    requires Newest(s.log, m.id)
    ensures DestOf(s, m) == |s.log|
    ensures UndoneFor(s, m) == Positioned(s, m) == LinksAt(s, m, |s.log|)
    ensures MovesOf(Filed(s, m)) == MovesOf(s.log) + [m]
    ensures LinksAt(s, m, |s.log| + 1) == MoveTo(Positioned(s, m), m.node, m.Key())
    ensures LogAt(s, m, |s.log| + 1) == s.log + [Record(m, PositionIn(s.links.pos, m.node))]
  {
    FiledMoves(s, m);
    assert Merged(MovesOf(s.log), |s.log|, m) == MovesOf(s.log) + [m];
  }

  lemma {:induction false} NewestLinks(s: State, m: Move)
    requires Faithful(s) && m.node != m.parent && Newest(s.log, m.id)
    ensures Ordered(MovesOf(Filed(s, m))) && NotUnderItself(MovesOf(Filed(s, m)))
    ensures WalksEnd(s, m) && LinksAt(s, m, |s.log| + 1) == Replay(MovesOf(Filed(s, m)))
  {
    NewestIsLast(s, m);
    InOrder(Positioned(s, m), MovesOf(s.log), m);
    assert WalkEnds(s, m, |s.log|);
  }

  // ---- A late move ----

  /** For a move that is ready in its turn, undoing the greater ones leads back to the ordered replay of
      the smaller ones exactly if the records are good. */
  lemma {:induction false} UndoneIffRecordsOk(s: State, m: Move)
    requires Faithful(s) && Ready(MovesOf(s.log), m)
    ensures UndoneTo(UndoneFor(s, m), MovesOf(s.log), DestOf(s, m), m.Key(), {}) <==>
            RecordsOk(s.log, MovesOf(s.log), DestOf(s, m))
  {
    FreshHasNoOwner(MovesOf(s.log), m.Key());
    UndoneExactly(Positioned(s, m), s.log, MovesOf(s.log), DestOf(s, m), m.Key());
  }

  lemma {:induction false} ReadyToRedo(s: State, m: Move)
    requires Faithful(s) && m.node != m.parent && Ready(MovesOf(s.log), m)
    ensures
      var all := MovesOf(Filed(s, m));
      && Ordered(all) && NotUnderItself(all) && Closed(all)
      && ReadyAt(UndoneFor(s, m), all, DestOf(s, m), Bad(s, m))
  {
    var ops, dest, all, l := MovesOf(s.log), DestOf(s, m), MovesOf(Filed(s, m)), Positioned(s, m);
    FiledMoves(s, m);
    DestBelongs(ops, m.id);
    MergedIsOrdered(ops, dest, m);
    MergedIsClosed(ops, dest, m);
    FreshHasNoOwner(ops, m.Key());
    UndoneButBad(l, s.log, ops, dest, m.Key());
    FirstIsCurrent(l, ops, m.Key());
    UndoneKeepsOwn(l, s.log, ops, dest, m.Key());
    OwnersKept(UndoneFor(s, m).pos, ops, dest, m);
    assert all[..dest] == ops[..dest];
  }

  lemma {:induction false} FreshHasNoOwner(ops: seq<Move>, key: PosKey)
    requires forall i :: 0 <= i < |ops| ==> ops[i].id != key.id
    ensures OwnerOf(ops, key) == None
  {
    if OwnerOf(ops, key).Some? {
      var i := OwnerIndex(ops, key);
    }
  }

  /** Searches that meet no bad node come out right. Whether they do can be told in advance, from the log. */
  lemma {:induction false} NoneMetIsRight(s: State, m: Move)
    requires Faithful(s) && m.node != m.parent && Ready(MovesOf(s.log), m) && NoneMet(s, m)
    ensures SearchesRight(s, m)
  {
    ReadyToRedo(s, m);
    forall i | DestOf(s, m) <= i <= |s.log|
      ensures RightAt(UndoneFor(s, m), MovesOf(Filed(s, m)), DestOf(s, m), i)
    {
      UnmetRedo(UndoneFor(s, m), MovesOf(Filed(s, m)), DestOf(s, m), i, Bad(s, m));
    }
  }

  /** Good records do no harm. */
  lemma {:induction false} GoodRecordsAreHandled(s: State, m: Move)
    requires Faithful(s) && m.node != m.parent && Ready(MovesOf(s.log), m)
    requires RecordsOk(s.log, MovesOf(s.log), DestOf(s, m))
    ensures NoneMet(s, m) && Handled(s, m)
  {
    var all := MovesOf(Filed(s, m));
    NoBadNodes(s.log, MovesOf(s.log), DestOf(s, m));
    forall i | DestOf(s, m) <= i <= |s.log|
      ensures UnmetAt(Bad(s, m), all, DestOf(s, m), i)
    {
      NeverBad(all, DestOf(s, m), i);
    }
    NoneMetIsRight(s, m);
  }

  lemma {:induction false} HealedLeavesNone(s: State, m: Move)
    ensures AllHealed(s, m) <==> BadAt(Bad(s, m), MovesOf(Filed(s, m)), DestOf(s, m), |s.log| + 1) == {}
  {
    var all, dest, n := MovesOf(Filed(s, m)), DestOf(s, m), |s.log| + 1;
    var left := BadAt(Bad(s, m), all, dest, n);
    forall x
      ensures x in left <==> x in Bad(s, m) && !MovedAgain(all, dest, n, x)
    {
      StillBad(Bad(s, m), all, dest, n, x);
    }
    if left != {} {
      var x :| x in left;
      assert x in Bad(s, m) && !MovedAgain(all, dest, n, x);
    }
  }

  lemma {:induction false} LateReady(s: State, m: Move, all: seq<Move>, l: Links, i: nat)
    requires Faithful(s) && m.node != m.parent && Ready(MovesOf(s.log), m) && SearchesRight(s, m)
    requires all == MovesOf(Filed(s, m)) && DestOf(s, m) <= i < |all| && l == LinksAt(s, m, i)
    ensures Ordered(all) && NotUnderItself(all) && Closed(all)
    ensures ReadyAt(l, all, i, BadAt(Bad(s, m), all, DestOf(s, m), i)) && SearchedRight(l, Replay(all[..i]), all[i])
  {
    ReadyToRedo(s, m);
    assert RightAt(UndoneFor(s, m), all, DestOf(s, m), i);
    RedoTracks(UndoneFor(s, m), all, DestOf(s, m), i, Bad(s, m));
  }

  lemma {:induction false} LateWalksEnd(s: State, m: Move)
    requires SearchesRight(s, m)
    ensures WalksEnd(s, m)
  {
    forall i | DestOf(s, m) <= i <= |s.log|
      ensures WalkEnds(s, m, i)
    {
      assert RightAt(UndoneFor(s, m), MovesOf(Filed(s, m)), DestOf(s, m), i);
      assert MovesOf(Filed(s, m))[i] == Filed(s, m)[i].move;
    }
  }

  lemma {:induction false} LinksStep(s: State, m: Move, i: nat)
    requires DestOf(s, m) <= i <= |s.log|
    ensures
      var next := MovesOf(Filed(s, m))[i];
      LinksAt(s, m, i + 1) == MoveTo(LinksAt(s, m, i), next.node, next.Key())
  {
  }

  lemma {:induction false} LateDone(s: State, m: Move, all: seq<Move>, l: Links, i: nat, bad: set<string>)
    requires Faithful(s) && m.node != m.parent && Ready(MovesOf(s.log), m) && SearchesRight(s, m)
    requires all == MovesOf(Filed(s, m)) && i == |all| - 1 && l == LinksAt(s, m, i)
    requires bad == BadAt(Bad(s, m), all, DestOf(s, m), i)
    ensures Ordered(all) && NotUnderItself(all) && Closed(all)
    ensures DoneTo(MoveTo(l, all[i].node, all[i].Key()), all, |all|, BadAfter(bad, all[..i], all[i]))
  {
    LateReady(s, m, all, l, i);
    StepAt(l, all, i, bad);
  }

  lemma {:induction false} LateReplayed(s: State, m: Move, all: seq<Move>, l: Links, last: Links, bad: set<string>)
    requires Faithful(s) && m.node != m.parent && Ready(MovesOf(s.log), m) && SearchesRight(s, m)
    requires all == MovesOf(Filed(s, m)) && l == LinksAt(s, m, |s.log|)
    requires bad == BadAt(Bad(s, m), all, DestOf(s, m), |s.log|)
    requires last == MoveTo(l, all[|s.log|].node, all[|s.log|].Key())
    ensures Ordered(all) && NotUnderItself(all)
    ensures last == Replay(all) <==> BadAfter(bad, all[..|s.log|], all[|s.log|]) == {}
  {
    LateDone(s, m, all, l, |s.log|, bad);
    AllDone(last, all, BadAfter(bad, all[..|s.log|], all[|s.log|]));
  }

  lemma {:induction false} LeftAtEnd(s: State, m: Move, all: seq<Move>, bad: set<string>, i: nat)
    requires all == MovesOf(Filed(s, m)) && i == |s.log| && bad == BadAt(Bad(s, m), all, DestOf(s, m), i)
    ensures AllHealed(s, m) <==> BadAfter(bad, all[..i], all[i]) == {}
  {
    HealedLeavesNone(s, m);
  }

  lemma {:induction false} LateHealed(s: State, m: Move, l: Links, last: Links)
    requires Faithful(s) && m.node != m.parent && Ready(MovesOf(s.log), m) && SearchesRight(s, m)
    requires l == LinksAt(s, m, |s.log|) && last == LinksAt(s, m, |s.log| + 1)
    ensures Ordered(MovesOf(Filed(s, m))) && NotUnderItself(MovesOf(Filed(s, m)))
    ensures last == Replay(MovesOf(Filed(s, m))) <==> AllHealed(s, m)
  {
    var all, i := MovesOf(Filed(s, m)), |s.log|;
    var bad := BadAt(Bad(s, m), all, DestOf(s, m), i);
    LinksStep(s, m, i);
    LateReplayed(s, m, all, l, last, bad);
    LeftAtEnd(s, m, all, bad, i);
  }

  /** With searches that come out right the links are those of the ordered replay exactly if every bad node
      has a move that goes through again. */
  lemma {:induction false} LateLinks(s: State, m: Move)
    requires Faithful(s) && m.node != m.parent && Ready(MovesOf(s.log), m) && SearchesRight(s, m)
    ensures Ordered(MovesOf(Filed(s, m))) && NotUnderItself(MovesOf(Filed(s, m)))
    ensures WalksEnd(s, m)
    ensures LinksAt(s, m, |s.log| + 1) == Replay(MovesOf(Filed(s, m))) <==> AllHealed(s, m)
  {
    LateWalksEnd(s, m);
    LateHealed(s, m, LinksAt(s, m, |s.log|), LinksAt(s, m, |s.log| + 1));
  }

  // ---- The records ----

  /** What the record at `i` holds after a late move: a skipped move keeps its record, and one that
      goes through records the replayed position of its node, unless the node is bad or no earlier move
      knows it. */
  ghost predicate RecordAfter(s: State, m: Move, i: nat)
    requires i < |Integrated(s, m).log|
  {
    RecordIs(s, m, MovesOf(Filed(s, m)), Integrated(s, m).log[i], i)
  }

  ghost predicate RecordIs(s: State, m: Move, all: seq<Move>, rec: Record, i: nat)
    requires i < |all| == |s.log| + 1
  {
    && rec.move == all[i] && OwnRecord(rec, all)
    && (i < DestOf(s, m) ==> rec == s.log[i])
    && (i == DestOf(s, m) ==> rec.oldPosition == PositionIn(s.links.pos, m.node))
    && (i > DestOf(s, m) ==>
          if Ancestor(Replay(all[..i]).pos, all[i].node, all[i].parent) then rec == s.log[i - 1]
          else all[i].node in Known(all[..i]) - BadAt(Bad(s, m), all, DestOf(s, m), i) ==>
            rec.oldPosition == PositionIn(Replay(all[..i]).pos, all[i].node))
  }

  lemma {:induction false} RecordAt(s: State, m: Move, i: nat)
    requires i <= |s.log|
    ensures Integrated(s, m).log[i].move == MovesOf(Filed(s, m))[i]
    ensures i < DestOf(s, m) ==> Integrated(s, m).log[i] == s.log[i]
    ensures i == DestOf(s, m) ==> Integrated(s, m).log[i] == Record(m, PositionIn(s.links.pos, m.node))
    ensures i > DestOf(s, m) ==> Integrated(s, m).log[i] == Refreshed(LinksAt(s, m, i), s.log[i - 1])
  {
    assert Integrated(s, m).log[i] == RefreshedAt(s, m, |s.log| + 1, i);
  }

  lemma {:induction false} KeptRecord(ops: seq<Move>, dest: nat, m: Move, rec: Record)
    requires dest <= |ops| && Ordered(Merged(ops, dest, m)) && OwnRecord(rec, ops)
    ensures OwnRecord(rec, Merged(ops, dest, m))
  {
    if rec.oldPosition.Some? {
      OwnerKept(ops, dest, m, rec.oldPosition.value);
    }
  }

  lemma {:induction false} OldRecord(s: State, m: Move, i: nat)
    requires Faithful(s) && m.node != m.parent && i < |s.log| && Ordered(MovesOf(Filed(s, m)))
    ensures OwnRecord(s.log[i], MovesOf(Filed(s, m)))
  {
    FiledMoves(s, m);
    assert OwnRecord(s.log[i], MovesOf(s.log));
    KeptRecord(MovesOf(s.log), DestOf(s, m), m, s.log[i]);
  }

  lemma {:induction false} NewRecord(s: State, m: Move)
    requires Faithful(s) && m.node != m.parent && Ordered(MovesOf(Filed(s, m)))
    ensures OwnRecord(Record(m, PositionIn(s.links.pos, m.node)), MovesOf(Filed(s, m)))
  {
    var ops := MovesOf(s.log);
    FiledMoves(s, m);
    assert ops[..|ops|] == ops;
    ReplayHoldsOwn(ops, |ops|);
    KeptRecord(ops, DestOf(s, m), m, Record(m, PositionIn(s.links.pos, m.node)));
  }

  lemma {:induction false} FiledRecord(s: State, m: Move, all: seq<Move>, rec: Record, i: nat)
    requires Faithful(s) && m.node != m.parent && i <= DestOf(s, m) && all == MovesOf(Filed(s, m)) && Ordered(all)
    requires rec.move == all[i]
    requires rec == if i < DestOf(s, m) then s.log[i] else Record(m, PositionIn(s.links.pos, m.node))
    ensures RecordIs(s, m, all, rec, i)
  {
    if i < DestOf(s, m) {
      OldRecord(s, m, i);
    } else {
      NewRecord(s, m);
    }
  }

  lemma {:induction false} LateIsNotNewest(s: State, m: Move)
    requires DestOf(s, m) < |s.log|
    ensures !Newest(s.log, m.id)
  {
  }

  lemma {:induction false} RedoneRecordIs(s: State, m: Move, all: seq<Move>, l: Links, rec: Record, i: nat)
    requires DestOf(s, m) < i < |all| == |s.log| + 1
    requires rec == Refreshed(l, s.log[i - 1]) && rec.move == all[i] && OwnRecord(s.log[i - 1], all)
    requires Ordered(all) && NotUnderItself(all) && Closed(all) && SearchedRight(l, Replay(all[..i]), all[i])
    requires ReadyAt(l, all, i, BadAt(Bad(s, m), all, DestOf(s, m), i))
    ensures RecordIs(s, m, all, rec, i)
  {
    var trusted := Known(all[..i]) - BadAt(Bad(s, m), all, DestOf(s, m), i);
    assert all[i].node in trusted ==> AgreeOn(l.pos, Replay(all[..i]).pos, all[i].node);
  }

  lemma {:induction false} RedoneRecord(s: State, m: Move, all: seq<Move>, l: Links, rec: Record, i: nat)
    requires Faithful(s) && m.node != m.parent && Sheltered(s, m)
    requires all == MovesOf(Filed(s, m)) && Ordered(all) && DestOf(s, m) < i <= |s.log|
    requires l == LinksAt(s, m, i) && rec == Refreshed(l, s.log[i - 1]) && rec.move == all[i]
    ensures RecordIs(s, m, all, rec, i)
  {
    LateIsNotNewest(s, m);
    OldRecord(s, m, i - 1);
    LateReady(s, m, all, l, i);
    RedoneRecordIs(s, m, all, l, rec, i);
  }

  lemma {:induction false} RecordHolds(s: State, m: Move, i: nat)
    requires Faithful(s) && m.node != m.parent && Sheltered(s, m) && i <= |s.log|
    requires Ordered(MovesOf(Filed(s, m)))
    ensures RecordAfter(s, m, i)
  {
    RecordAt(s, m, i);
    if i <= DestOf(s, m) {
      FiledRecord(s, m, MovesOf(Filed(s, m)), Integrated(s, m).log[i], i);
    } else {
      RedoneRecord(s, m, MovesOf(Filed(s, m)), LinksAt(s, m, i), Integrated(s, m).log[i], i);
    }
  }

  // ---- The whole step ----

  lemma {:induction false} PresentAfter(nodes: set<string>, parents: set<string>, ops: seq<Move>, dest: nat, m: Move)
    requires Present(nodes, parents, ops) && dest <= |ops| && m.parent in nodes
    ensures Present(nodes + {m.node}, parents + {m.parent}, Merged(ops, dest, m))
  {
  }

  /** What the checks of `Integrate` have established about a move that goes ahead. */
  lemma {:induction false} GrownLists(s: State, m: Move)
    requires Faithful(s) && VerdictOf(s, m) == Moved && Sheltered(s, m)
    ensures ListsFollow(Integrated(s, m).children, MovesOf(Filed(s, m)))
  {
    var ops, dest := MovesOf(s.log), DestOf(s, m);
    ListMembers(s.children, ops, m.parent, m.id);
    ListMembers(s.children, ops, m.parent, m.ref);
    FiledMoves(s, m);
    assert ops[..|ops|] == ops;
    if Newest(s.log, m.id) {
      NewestIsLast(s, m);
    }
    MergedLists(s.children, ops, dest, m);
  }

  /** Whatever is integrated in order, or late without harm, the tree is then again what replaying all its
      moves in identifier order leads to, no search goes on for ever, and the records are known. */
  lemma {:induction false} StaysFaithful(s: State, m: Move)
    requires Faithful(s) && (VerdictOf(s, m) == Moved ==> Handled(s, m))
    ensures Faithful(After(s, m))
    ensures VerdictOf(s, m) != Moved ==> After(s, m).log == s.log && After(s, m).links == s.links
    ensures VerdictOf(s, m) == Moved ==>
      && WalksEnd(s, m) && MovesOf(After(s, m).log) == Merged(MovesOf(s.log), DestOf(s, m), m)
      && forall i :: 0 <= i <= |s.log| ==> RecordAfter(s, m, i)
  {
    if VerdictOf(s, m) == Moved {
      MovedStaysFaithful(s, m);
    } else {
      ListsOnly(s, m.parent);
    }
  }

  lemma {:induction false} ListsOnly(s: State, parent: string)
    requires Faithful(s)
    ensures ListsFollow(WithList(s, parent).children, MovesOf(s.log))
  {
    forall p
      ensures ListFollows(SiblingsOf(WithList(s, parent).children, p), AtomsOf(MovesOf(s.log), p))
    {
      assert ListFollows(SiblingsOf(s.children, p), AtomsOf(MovesOf(s.log), p));
    }
  }

  lemma {:induction false} MovedStaysFaithful(s: State, m: Move)
    requires Faithful(s) && VerdictOf(s, m) == Moved && Handled(s, m)
    ensures Faithful(Integrated(s, m)) && WalksEnd(s, m)
    ensures MovesOf(Integrated(s, m).log) == Merged(MovesOf(s.log), DestOf(s, m), m)
    ensures forall i :: 0 <= i <= |s.log| ==> RecordAfter(s, m, i)
  {
    MovedKnown(s, m);
    if Newest(s.log, m.id) {
      NewestLinks(s, m);
    } else {
      LateLinks(s, m);
    }
    FaithfulParts(s, m, Integrated(s, m), MovesOf(Filed(s, m)));
  }

  /** What holds of any move whose searches come out right. */
  lemma {:induction false} MovedKnown(s: State, m: Move)
    requires Faithful(s) && VerdictOf(s, m) == Moved && Sheltered(s, m)
    ensures WalksEnd(s, m) && Ordered(MovesOf(Filed(s, m))) && NotUnderItself(MovesOf(Filed(s, m)))
    ensures MovesOf(Integrated(s, m).log) == MovesOf(Filed(s, m)) == Merged(MovesOf(s.log), DestOf(s, m), m)
    ensures OwnRecords(Integrated(s, m).log, MovesOf(Filed(s, m)))
    ensures forall i :: 0 <= i <= |s.log| ==> RecordAfter(s, m, i)
  {
    if Newest(s.log, m.id) {
      NewestLinks(s, m);
    } else {
      LateLinks(s, m);
    }
    RecordsHold(s, m);
    FiledMoves(s, m);
    LogMoves(s, m, |s.log| + 1);
  }

  /** Of a move whose searches come out right: the records are known, and the tree is what replaying its
      moves in identifier order leads to exactly if the move is in order or every bad node has a move that
      goes through again. */
  lemma {:induction false} FaithfulExactly(s: State, m: Move)
    requires Faithful(s) && VerdictOf(s, m) == Moved && Sheltered(s, m)
    ensures WalksEnd(s, m) && MovesOf(After(s, m).log) == Merged(MovesOf(s.log), DestOf(s, m), m)
    ensures forall i :: 0 <= i <= |s.log| ==> RecordAfter(s, m, i)
    ensures Faithful(After(s, m)) <==> Newest(s.log, m.id) || AllHealed(s, m)
  {
    MovedKnown(s, m);
    if Newest(s.log, m.id) || AllHealed(s, m) {
      MovedStaysFaithful(s, m);
    } else {
      LateLinks(s, m);
    }
  }

  /** Whatever else happens: if the tree is the ordered replay in the end, then the search made for the last
      move of each node has come out as there. */
  lemma {:induction false} LastSearchIsRight(s: State, m: Move, i: nat)
    requires VerdictOf(s, m) == Moved && Faithful(After(s, m))
    requires DestOf(s, m) <= i <= |s.log| && LastOfNode(MovesOf(Filed(s, m)), i)
    ensures
      var all := MovesOf(Filed(s, m));
      Ancestor(LinksAt(s, m, i).pos, all[i].node, all[i].parent) <==> !GoesThrough(all, i)
  {
    LogMoves(s, m, |s.log| + 1);
    LastVerdict(UndoneFor(s, m), MovesOf(Filed(s, m)), DestOf(s, m), i);
  }

  /** From the late move on no node is moved twice. */
  ghost predicate OnceEach(s: State, m: Move)
  {
    forall i :: DestOf(s, m) <= i <= |s.log| ==> LastOfNode(MovesOf(Filed(s, m)), i)
  }

  /** Where no node is moved twice from the late move on: no search goes on for ever and the tree is the
      ordered replay exactly if all searches come out right and every bad node has a move that goes through
      again. */
  lemma {:induction false} FaithfulExactlyOnceEach(s: State, m: Move)
    requires Faithful(s) && VerdictOf(s, m) == Moved && !Newest(s.log, m.id)
    requires Ready(MovesOf(s.log), m) && OnceEach(s, m)
    ensures WalksEnd(s, m) && Faithful(After(s, m)) <==> SearchesRight(s, m) && AllHealed(s, m)
  {
    if WalksEnd(s, m) && Faithful(After(s, m)) {
      var all, dest := MovesOf(Filed(s, m)), DestOf(s, m);
      forall i | dest <= i <= |s.log|
        ensures RightAt(UndoneFor(s, m), all, dest, i)
      {
        assert LastOfNode(all, i) && WalkEnds(s, m, i) && all[i] == Filed(s, m)[i].move;
        LastSearchIsRight(s, m, i);
      }
      FaithfulExactly(s, m);
    } else if SearchesRight(s, m) && AllHealed(s, m) {
      FaithfulExactly(s, m);
    }
  }

  lemma {:induction false} RecordsHold(s: State, m: Move)
    requires Faithful(s) && m.node != m.parent && Sheltered(s, m) && Ordered(MovesOf(Filed(s, m)))
    ensures OwnRecords(Integrated(s, m).log, MovesOf(Filed(s, m)))
    ensures forall i :: 0 <= i <= |s.log| ==> RecordAfter(s, m, i)
  {
    forall i | 0 <= i <= |s.log|
      ensures RecordAfter(s, m, i) && OwnRecord(Integrated(s, m).log[i], MovesOf(Filed(s, m)))
    {
      RecordHolds(s, m, i);
    }
  }

  lemma {:induction false} StaysPresent(s: State, m: Move)
    requires Present(s.nodes + {m.node}, s.children.Keys + {m.parent}, MovesOf(s.log)) && m.parent in s.nodes
    ensures Present(Integrated(s, m).nodes, Integrated(s, m).children.Keys, MovesOf(Integrated(s, m).log))
    ensures NodesKnown(Integrated(s, m).nodes, MovesOf(s.log))
  {
    PresentAfter(s.nodes + {m.node}, s.children.Keys + {m.parent}, MovesOf(s.log), DestOf(s, m), m);
    FiledMoves(s, m);
    LogMoves(s, m, |s.log| + 1);
    assert s.nodes + {m.node} + {m.node} == s.nodes + {m.node};
    assert Integrated(s, m).children.Keys == s.children.Keys + {m.parent} + {m.parent};
  }

  lemma {:induction false} FaithfulParts(s: State, m: Move, s': State, all: seq<Move>)
    requires Faithful(s) && VerdictOf(s, m) == Moved && Handled(s, m)
    requires s' == Integrated(s, m) && all == MovesOf(Filed(s, m))
    requires Ordered(all) && NotUnderItself(all) && s'.links == Replay(all) && OwnRecords(s'.log, all)
    ensures Faithful(s') && MovesOf(s'.log) == all
  {
    LogMoves(s, m, |s.log| + 1);
    GrownLists(s, m);
    StaysPresent(s, m);
    FaithfulFrom(s', all);
  }

  lemma {:induction false} FaithfulFrom(s: State, all: seq<Move>)
    requires MovesOf(s.log) == all && Ordered(all) && NotUnderItself(all) && s.links == Replay(all)
    requires ListsFollow(s.children, all) && Present(s.nodes, s.children.Keys, all) && OwnRecords(s.log, all)
    ensures Faithful(s)
  {
  }
}

/** The order of the children of each node: one list CRDT per parent, fed by the moves
    under that parent (backend/crdt/tree.go). */
module Siblings {
  import opened Crdt
  import opened Rga
  import opened MoveTree
  import opened LateMove

  /** The inserts that a log of moves makes into the list of `parent`. */
  ghost function AtomsOf(ops: seq<Move>, parent: string): seq<Atom>
  {
    if ops == [] then []
    else
      var m := ops[|ops| - 1];
      AtomsOf(ops[..|ops| - 1], parent) + if m.parent == parent then [Atom(m.id, m.ref)] else []
  }

  lemma {:induction false} AtomsOfConcat(u: seq<Move>, v: seq<Move>, parent: string)
    ensures AtomsOf(u + v, parent) == AtomsOf(u, parent) + AtomsOf(v, parent)
  {
    if v == [] {
      assert u + v == u;
      assert AtomsOf(u, parent) + [] == AtomsOf(u, parent);
    } else {
      var n := |v| - 1;
      var w, m := v[..n], v[n];
      AtomsOfConcat(u, w, parent);
      assert u + v == (u + w) + [m] && v == w + [m];
    }
  }

  lemma {:induction false} AtomsComeFromMoves(ops: seq<Move>, parent: string, id: ID)
    ensures Has(AtomsOf(ops, parent), id) <==> exists i :: 0 <= i < |ops| && ops[i].Key() == PosKey(parent, id)
  {
    if ops != [] {
      var n := |ops| - 1;
      var s, t := AtomsOf(ops[..n], parent), AtomsOf(ops, parent);
      AtomsComeFromMoves(ops[..n], parent, id);
      if Has(t, id) {
        var i :| 0 <= i < |t| && t[i].id == id;
        if i < |s| {
          assert s[i].id == id;
          var j :| 0 <= j < n && ops[..n][j].Key() == PosKey(parent, id);
          assert ops[j].Key() == PosKey(parent, id);
        } else {
          assert ops[n].Key() == PosKey(parent, id);
        }
      }
      if j :| 0 <= j < |ops| && ops[j].Key() == PosKey(parent, id) {
        if j < n {
          assert ops[..n][j].Key() == PosKey(parent, id);
          var i :| 0 <= i < |s| && s[i].id == id;
          assert t[i].id == id;
        } else {
          assert t[|s|].id == id;
        }
      }
    }
  }

  /** The list of every parent holds its inserts in the order of the replicated list. */
  ghost predicate ListsFollow(children: map<string, seq<Atom>>, ops: seq<Move>)
  {
    forall p :: ListFollows(SiblingsOf(children, p), AtomsOf(ops, p))
  }

  ghost predicate ListFollows(s: seq<Atom>, inserts: seq<Atom>)
  {
    Delivery([], inserts) && s == Run([], inserts)
  }

  ghost function SiblingsOf(children: map<string, seq<Atom>>, p: string): seq<Atom>
  {
    if p in children then children[p] else []
  }

  lemma {:induction false} ListMembers(children: map<string, seq<Atom>>, ops: seq<Move>, p: string, id: ID)
    requires ListsFollow(children, ops)
    ensures Distinct(SiblingsOf(children, p))
    ensures Has(SiblingsOf(children, p), id) <==> Has(AtomsOf(ops, p), id)
    ensures Has(SiblingsOf(children, p), id) <==> exists i :: 0 <= i < |ops| && ops[i].Key() == PosKey(p, id)
  {
    assert ListFollows(SiblingsOf(children, p), AtomsOf(ops, p));
    RunKeeps([], AtomsOf(ops, p));
    AtomsComeFromMoves(ops, p, id);
  }

  /** The lists after one more move, wherever its identifier belongs in the log, are those of
      the log with the move put there. */
  lemma {:induction false} MergedLists(children: map<string, seq<Atom>>, ops: seq<Move>, dest: nat, m: Move)
    requires ListsFollow(children, ops) && dest <= |ops| && !IsRoot(m.id)
    requires !Has(SiblingsOf(children, m.parent), m.id)
    requires KnowsRef(AtomsOf(ops[..dest], m.parent), m.ref)
    ensures
      var s := Insert(SiblingsOf(children, m.parent), Atom(m.id, m.ref));
      ListsFollow(children[m.parent := s], Merged(ops, dest, m))
  {
    var s := Insert(SiblingsOf(children, m.parent), Atom(m.id, m.ref));
    forall p
      ensures ListFollows(SiblingsOf(children[m.parent := s], p), AtomsOf(Merged(ops, dest, m), p))
    {
      MergedList(children, ops, dest, m, p);
    }
  }

  lemma {:induction false} MergedList(children: map<string, seq<Atom>>, ops: seq<Move>, dest: nat, m: Move, p: string)
    requires ListsFollow(children, ops) && dest <= |ops| && !IsRoot(m.id)
    requires !Has(SiblingsOf(children, m.parent), m.id)
    requires KnowsRef(AtomsOf(ops[..dest], m.parent), m.ref)
    ensures ListFollows(if p == m.parent then Insert(SiblingsOf(children, p), Atom(m.id, m.ref))
                        else SiblingsOf(children, p),
                        AtomsOf(Merged(ops, dest, m), p))
  {
    MergedAtoms(ops, dest, m, p);
    assert ListFollows(SiblingsOf(children, p), AtomsOf(ops, p));
    if p == m.parent {
      ListMembers(children, ops, p, m.id);
      LateInsert(AtomsOf(ops[..dest], p), AtomsOf(ops[dest..], p), Atom(m.id, m.ref));
    }
  }

  lemma {:induction false} MergedAtoms(ops: seq<Move>, dest: nat, m: Move, p: string)
    requires dest <= |ops|
    ensures
      var u, v := AtomsOf(ops[..dest], p), AtomsOf(ops[dest..], p);
      && AtomsOf(ops, p) == u + v
      && AtomsOf(Merged(ops, dest, m), p) == if m.parent == p then u + [Atom(m.id, m.ref)] + v else u + v
  {
    assert ops == ops[..dest] + ops[dest..];
    AtomsOfConcat(ops[..dest], ops[dest..], p);
    AtomsOfConcat(ops[..dest] + [m], ops[dest..], p);
  }
}

/** What holds of every tree, whatever moves it got and however late (backend/crdt/tree.go). */
module TreeShape {
  import opened Crdt
  import opened Rga
  import opened MoveTree
  import opened LateMove
  import opened Siblings
  import opened TreeSteps

  /** The position is in its list. */
  ghost predicate Listed(children: map<string, seq<Atom>>, k: PosKey)
  {
    Has(SiblingsOf(children, k.list), k.id)
  }

  ghost predicate AllListed(children: map<string, seq<Atom>>, pos: map<string, PosKey>)
  {
    forall n :: n in pos ==> Listed(children, pos[n])
  }

  ghost predicate RecordListed(children: map<string, seq<Atom>>, rec: Record)
  {
    Listed(children, rec.move.Key()) && (rec.oldPosition.Some? ==> Listed(children, rec.oldPosition.value))
  }

  ghost predicate LogListed(children: map<string, seq<Atom>>, log: seq<Record>)
  {
    forall i :: 0 <= i < |log| ==> RecordListed(children, log[i])
  }

  ghost predicate AllDistinct(children: map<string, seq<Atom>>)
  {
    forall p :: Distinct(SiblingsOf(children, p))
  }

  ghost predicate AllCurrent(l: Links)
  {
    forall k :: k in l.alive ==> IsCurrent(l, k)
  }

  /** Lists hold no position twice, alive positions are current ones of their nodes, and all positions that
      are linked or logged are in their lists. */
  ghost predicate Shaped(s: State)
  {
    && AllDistinct(s.children) && AllCurrent(s.links)
    && AllListed(s.children, s.links.pos) && LogListed(s.children, s.log)
  }

  lemma {:induction false} StartIsShaped(seen: map<string, ID>)
    ensures Shaped(Start(seen))
  {
  }

  // ---- What undoing and redoing keep ----

  lemma {:induction false} UndoneStaysShaped(children: map<string, seq<Atom>>, l: Links, log: seq<Record>, i: nat,
                                             late: PosKey)
    requires i <= |log| && AllListed(children, l.pos) && LogListed(children, log) && Current(l, late)
    ensures AllListed(children, UndoneFrom(l, log, i).pos) && Current(UndoneFrom(l, log, i), late)
    decreases |log| - i
  {
    if i < |log| {
      var x, rec := UndoneFrom(l, log, i + 1), log[i];
      UndoneStaysShaped(children, l, log, i + 1, late);
      assert RecordListed(children, rec);
      var y := Undo(x, rec.move.node, rec.oldPosition);
      forall k | k in y.alive && k != late
        ensures IsCurrent(y, k)
      {
        assert k in x.alive ==> IsCurrent(x, k);
      }
    }
  }

  /** Doing the late move settles what becomes of its position. */
  lemma {:induction false} PlacedIsCurrent(l: Links, node: string, key: PosKey)
    requires Current(l, key)
    ensures AllCurrent(MoveTo(l, node, key))
  {
    var y := MoveTo(l, node, key);
    forall k | k in y.alive
      ensures IsCurrent(y, k)
    {
      assert k in l.alive && k != key ==> IsCurrent(l, k);
    }
  }

  lemma {:induction false} RedoneStaysShaped(children: map<string, seq<Atom>>, l: Links, all: seq<Move>, from: nat, i: nat)
    requires from < i <= |all| && AllListed(children, l.pos) && Current(l, all[from].Key())
    requires forall j :: 0 <= j < |all| ==> Listed(children, all[j].Key())
    ensures AllListed(children, RedoneTo(l, all, from, i).pos) && AllCurrent(RedoneTo(l, all, from, i))
  {
    var m := all[i - 1];
    if i > from + 1 {
      RedoneStaysShaped(children, l, all, from, i - 1);
    }
    PlacedIsCurrent(RedoneTo(l, all, from, i - 1), m.node, m.Key());
  }

  // ---- One call ----

  ghost predicate Grew(children: map<string, seq<Atom>>, grown: map<string, seq<Atom>>)
  {
    forall k :: Listed(children, k) ==> Listed(grown, k)
  }

  lemma {:induction false} NewIsListed(s: State, m: Move)
    requires AllDistinct(s.children) && VerdictOf(s, m) == Moved
    ensures AllDistinct(Integrated(s, m).children) && Listed(Integrated(s, m).children, m.Key())
    ensures Grew(s.children, Integrated(s, m).children)
  {
    var grown := Integrated(s, m).children;
    InsertKeeps(SiblingsOf(s.children, m.parent), Atom(m.id, m.ref));
    forall p
      ensures Distinct(SiblingsOf(grown, p))
    {
      assert p != m.parent ==> SiblingsOf(grown, p) == SiblingsOf(s.children, p);
    }
    forall k | Listed(s.children, k)
      ensures Listed(grown, k)
    {
      assert k.list != m.parent ==> SiblingsOf(grown, k.list) == SiblingsOf(s.children, k.list);
    }
  }

  lemma {:induction false} RecordStaysListed(children: map<string, seq<Atom>>, grown: map<string, seq<Atom>>, rec: Record)
    requires Grew(children, grown) && RecordListed(children, rec)
    ensures RecordListed(grown, rec)
  {
  }

  lemma {:induction false} LogStaysInLists(children: map<string, seq<Atom>>, grown: map<string, seq<Atom>>, log: seq<Record>)
    requires Grew(children, grown) && LogListed(children, log)
    ensures LogListed(grown, log)
  {
    forall i | 0 <= i < |log|
      ensures RecordListed(grown, log[i])
    {
      RecordStaysListed(children, grown, log[i]);
    }
  }

  lemma {:induction false} FiledIsListed(s: State, m: Move, children: map<string, seq<Atom>>)
    requires Shaped(s) && Grew(s.children, children) && Listed(children, m.Key())
    ensures LogListed(children, s.log) && LogListed(children, Filed(s, m)) && AllListed(children, s.links.pos)
  {
    var log, d := Filed(s, m), DestOf(s, m);
    LogStaysInLists(s.children, children, s.log);
    forall n | n in s.links.pos
      ensures Listed(children, s.links.pos[n])
    {
      assert Listed(s.children, s.links.pos[n]);
    }
    forall i | 0 <= i < |log|
      ensures RecordListed(children, log[i])
    {
      if i != d {
        assert log[i] == s.log[if i < d then i else i - 1];
      }
    }
  }

  lemma {:induction false} LinksStayShaped(s: State, m: Move, children: map<string, seq<Atom>>, i: nat)
    requires Shaped(s) && Grew(s.children, children) && Listed(children, m.Key()) && DestOf(s, m) < i <= |s.log| + 1
    ensures AllListed(children, LinksAt(s, m, i).pos) && AllCurrent(LinksAt(s, m, i))
  {
    var all, dest := MovesOf(Filed(s, m)), DestOf(s, m);
    FiledIsListed(s, m, children);
    UndoneStaysShaped(children, Positioned(s, m), s.log, dest, m.Key());
    forall j | 0 <= j < |all|
      ensures Listed(children, all[j].Key())
    {
      assert RecordListed(children, Filed(s, m)[j]);
    }
    assert all[dest] == m;
    RedoneStaysShaped(children, UndoneFor(s, m), all, dest, i);
  }

  lemma {:induction false} LogStaysListed(s: State, m: Move, children: map<string, seq<Atom>>)
    requires Shaped(s) && Grew(s.children, children) && Listed(children, m.Key())
    ensures LogListed(children, LogAt(s, m, |s.log| + 1))
  {
    var log := LogAt(s, m, |s.log| + 1);
    FiledIsListed(s, m, children);
    forall i | 0 <= i < |log|
      ensures RecordListed(children, log[i])
    {
      assert RecordListed(children, Filed(s, m)[i]);
      if i > DestOf(s, m) {
        LinksStayShaped(s, m, children, i);
      }
      assert log[i] == RefreshedAt(s, m, |s.log| + 1, i);
    }
  }

  lemma {:induction false} SameLists(s: State, parent: string)
    ensures forall p :: SiblingsOf(WithList(s, parent).children, p) == SiblingsOf(s.children, p)
  {
  }

  /** Every call keeps the shape, whatever the move and the records. */
  lemma {:induction false} StaysShaped(s: State, m: Move)
    requires Shaped(s)
    ensures Shaped(After(s, m))
  {
    if VerdictOf(s, m) == Moved {
      NewIsListed(s, m);
      LinksStayShaped(s, m, Integrated(s, m).children, |s.log| + 1);
      LogStaysListed(s, m, Integrated(s, m).children);
    } else {
      SameLists(s, m.parent);
      OtherStaysShaped(s, After(s, m));
    }
  }

  lemma {:induction false} OtherStaysShaped(s: State, t: State)
    requires Shaped(s) && t.links == s.links && t.log == s.log
    requires forall p :: SiblingsOf(t.children, p) == SiblingsOf(s.children, p)
    ensures Shaped(t)
  {
    forall i | 0 <= i < |t.log|
      ensures RecordListed(t.children, t.log[i])
    {
      assert RecordListed(s.children, s.log[i]);
    }
  }
}

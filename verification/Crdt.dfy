/** Operation identifiers and the vector clock (backend/crdt/crdt.go). */
module Crdt {
  import Lex

  /** `clock` and `idx` are Go ints; identifiers are only compared and
      incremented by one, so their width plays no part here. */
  datatype ID = ID(origin: string, clock: int, idx: int)
  {
    predicate Less(other: ID)
    {
      if clock < other.clock then true
      else if clock > other.clock then false
      else if Lex.Less(origin, other.origin) then true
      else if Lex.Less(other.origin, origin) then false
      else idx < other.idx
    }
  }

  /** Identifiers are strictly and totally ordered: exactly one of the three relations holds. */
  lemma {:induction false} IdTrichotomy(a: ID, b: ID)
    ensures a.Less(b) || a == b || b.Less(a)
    ensures !(a.Less(b) && b.Less(a))
    ensures a.Less(b) ==> a != b
  {
    Lex.Trichotomy(a.origin, b.origin);
  }

  /** The clock decides, at equal clocks the origin, and of one origin the index. */
  lemma {:induction false} IdOrder(a: ID, b: ID)
    ensures a.clock < b.clock ==> a.Less(b)
    ensures a.clock == b.clock && (exists i: nat :: Lex.SmallerAt(a.origin, b.origin, i)) ==> a.Less(b)
    ensures a.clock == b.clock && a.origin == b.origin ==> (a.Less(b) <==> a.idx < b.idx)
  {
    Lex.LessMeans(a.origin, b.origin);
    Lex.Irreflexive(a.origin);
  }

  lemma {:induction false} IdTransitive(a: ID, b: ID, c: ID)
    requires a.Less(b) && b.Less(c)
    ensures a.Less(c)
  {
    Lex.Trichotomy(a.origin, b.origin);
    Lex.Trichotomy(b.origin, c.origin);
    Lex.Trichotomy(a.origin, c.origin);
    if Lex.Less(a.origin, b.origin) && Lex.Less(b.origin, c.origin) {
      Lex.Transitive(a.origin, b.origin, c.origin);
    }
  }

  class VectorClock {
    var maxClock: int
    var lastSeen: map<string, ID>

    /** Everything tracked is at or below the maximal Lamport time. */
    ghost predicate Valid()
      reads this
    {
      forall o :: o in lastSeen ==> lastSeen[o].origin == o && lastSeen[o].clock <= maxClock
    }

    constructor ()
      ensures Valid() && maxClock == 0 && lastSeen == map[]
    {
      maxClock := 0;
      lastSeen := map[];
    }

    /** A fresh identifier is above every identifier tracked so far. */
    method NewID(site: string) returns (id: ID)
      requires Valid()
      ensures id == ID(site, maxClock + 1, 0)
      ensures forall o :: o in lastSeen ==> lastSeen[o].Less(id)
    {
      id := ID(site, maxClock + 1, 0);
    }

    /** Fails exactly for an identifier below the last one of its origin. */
    method Track(id: ID) returns (ok: bool)
      requires Valid()
      modifies this
      ensures Valid()
      ensures ok <==> !(id.origin in old(lastSeen) && id.Less(old(lastSeen)[id.origin]))
      ensures !ok ==> lastSeen == old(lastSeen) && maxClock == old(maxClock)
      ensures ok ==> lastSeen == old(lastSeen)[id.origin := id]
      ensures ok ==> maxClock == if old(maxClock) < id.clock then id.clock else old(maxClock)
    {
      if id.origin in lastSeen && id.Less(lastSeen[id.origin]) {
        return false;
      }
      lastSeen := lastSeen[id.origin := id];
      if maxClock < id.clock {
        maxClock := id.clock;
      }
      return true;
    }
  }
}

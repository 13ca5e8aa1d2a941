/** The circular doubly linked list of a list CRDT (backend/crdt/list.go), proved to
    compute the sequences of module `Rga`. */
module RgaList {
  import opened Crdt
  import opened Options
  import opened Rga

  class Position<V> {
    const id: ID
    const ref: ID
    var left: Position<V>
    var right: Position<V>
    var value: Option<V>

    constructor (id: ID, ref: ID, value: Option<V>)
      ensures this.id == id && this.ref == ref
      ensures left == this && right == this && this.value == value
    {
      this.id, this.ref := id, ref;
      left, right := this, this;
      this.value := value;
    }
  }

  class List<V> {
    const name: string
    const root: Position<V>
    var items: map<ID, Position<V>>
    /** The root followed by the positions from left to right. */
    ghost var ring: seq<Position<V>>
    /** The positions behind the root, as plain inserts. */
    ghost var atoms: seq<Atom>

    ghost predicate Valid()
      reads this, ring
    {
      && Ring(root, ring) && Shows(ring, atoms)
      && (forall i :: 0 <= i < |ring| ==> Linked(ring, i))
      && Indexed(items, ring, atoms)
    }

    constructor (name: string)
      ensures Valid() && atoms == [] && this.name == name
      ensures fresh(root) && ring == [root] && root.value == None
    {
      var r := new Position<V>(LIST_START, LIST_START, None);
      this.name := name;
      root := r;
      items := map[LIST_START := r, LIST_END := r];
      ring := [r];
      atoms := [];
    }

    /** Fails, changing nothing, exactly for an identifier that is already there. */
    method Integrate(id: ID, parent: Position<V>, v: Option<V>) returns (r: Option<Position<V>>, ghost k: nat)
      requires Valid() && parent in ring
      modifies this, ring
      ensures Valid()
      ensures r == None <==> id in old(items)
      ensures r == None ==> unchanged(this) && unchanged(old(ring))
      ensures r.Some? ==>
        && fresh(r.value) && r.value.id == id && r.value.ref == parent.id && r.value.value == v
        && atoms == Insert(old(atoms), Atom(id, parent.id))
        && k < |old(ring)| && ring == old(ring)[..k + 1] + [r.value] + old(ring)[k + 1..]
        && (forall q :: q in old(ring) ==> q.value == old(q.value))
    {
      if id in items {
        return None, 0;
      }
      var p;
      p, k := PlaceNew(id, parent, v);
      r := Some(p);
    }

    /** Makes the position and puts it where it belongs behind its parent. */
    method PlaceNew(id: ID, parent: Position<V>, v: Option<V>) returns (p: Position<V>, ghost k: nat)
      requires Valid() && parent in ring && id !in items
      modifies this, ring
      ensures Valid() && fresh(p) && p.id == id && p.ref == parent.id && p.value == v
      ensures atoms == Insert(old(atoms), Atom(id, parent.id))
      ensures k < |old(ring)| && ring == old(ring)[..k + 1] + [p] + old(ring)[k + 1..]
      ensures forall q :: q in old(ring) ==> q.value == old(q.value)
    {
      p := new Position<V>(id, parent.id, v);
      ghost var from := IndexIn(ring, parent);
      var at;
      at, k := SkipGreater(id, parent, from);
      Attach(p, at, from, k);
    }

    /** Walks right from `parent` over the positions with greater identifiers. */
    method SkipGreater(id: ID, parent: Position<V>, ghost from: nat) returns (at: Position<V>, ghost k: nat)
      requires Valid() && from < |ring| && ring[from] == parent
      ensures from <= k < |ring| && ring[k] == at
      ensures IsGap(atoms, from, k, id)
    {
      at := parent;
      k := from;
      while !(at.right == root || at.right.id.Less(id))
        invariant from <= k < |ring| && at == ring[k]
        invariant forall j :: from <= j < k ==> !atoms[j].id.Less(id)
        decreases |ring| - k
      {
        assert Linked(ring, k) && SameAtom(ring[k + 1], atoms[k]);
        at := at.right;
        k := k + 1;
      }
      assert Linked(ring, k);
      assert k < |atoms| ==> SameAtom(ring[k + 1], atoms[k]);
    }

    /** Links the new position in and files it under its identifier. */
    method Attach(p: Position<V>, at: Position<V>, ghost from: nat, ghost k: nat)
      requires Valid() && from <= k < |ring| && ring[k] == at && p !in ring
      requires p.ref == ring[from].id && p.id !in items && IsGap(atoms, from, k, p.id)
      modifies this, ring, p
      ensures Valid()
      ensures atoms == Insert(old(atoms), Atom(p.id, p.ref))
      ensures ring == old(ring)[..k + 1] + [p] + old(ring)[k + 1..]
      ensures p.value == old(p.value)
      ensures forall q :: q in old(ring) ==> q.value == old(q.value)
    {
      PlacedAt(items, ring, atoms, from, k, p);
      InsertAfter(p, at, k);
      FileNew(p);
    }

    /** Files a position that is linked in already. */
    method FileNew(p: Position<V>)
      requires Ring(root, ring) && forall i :: 0 <= i < |ring| ==> Linked(ring, i)
      requires Shows(ring, Insert(atoms, Atom(p.id, p.ref)))
      requires Indexed(items[p.id := p], ring, Insert(atoms, Atom(p.id, p.ref)))
      modifies this`items, this`atoms
      ensures Valid() && atoms == Insert(old(atoms), Atom(p.id, p.ref))
    {
      items := items[p.id := p];
      atoms := Insert(atoms, Atom(p.id, p.ref));
    }

    method InsertAfter(el: Position<V>, left: Position<V>, ghost k: nat)
      requires Ring(root, ring) && k < |ring| && ring[k] == left && el !in ring
      requires forall i :: 0 <= i < |ring| ==> Linked(ring, i)
      modifies this`ring, ring, el
      ensures Ring(root, ring) && ring == old(ring)[..k + 1] + [el] + old(ring)[k + 1..]
      ensures forall i :: 0 <= i < |ring| ==> Linked(ring, i)
      ensures el.value == old(el.value)
      ensures forall q :: q in old(ring) ==> q.value == old(q.value)
    {
      ghost var was := ring;
      assert Linked(was, k);
      el.left := left;
      el.right := left.right;
      el.left.right := el;
      el.right.left := el;
      ring := ring[..k + 1] + [el] + ring[k + 1..];
      forall i | 0 <= i < |ring|
        ensures Linked(ring, i)
      {
        if i < k {
          assert old(Linked(was, i));
        } else if i > k + 1 {
          assert old(Linked(was, i - 1));
        }
      }
    }

    method FindPos(id: ID) returns (r: Option<Position<V>>)
      requires Valid()
      ensures r == None <==> !KnowsRef(atoms, id)
      ensures r.Some? ==> r.value in ring && (r.value == root <==> IsRoot(id))
      ensures r.Some? && !IsRoot(id) ==> r.value.id == id
    {
      assert KnownIfFiled(items, atoms, id);
      r := if id in items then Some(items[id]) else None;
    }

    /** Always ends up behind everything else. */
    method Append(id: ID, v: Option<V>) returns (r: Option<Position<V>>)
      requires Valid()
      modifies this, ring
      ensures Valid()
      ensures r == None <==> id in old(items)
      ensures r == None ==> unchanged(this) && unchanged(old(ring))
      ensures r.Some? ==> r.value.value == v && atoms == old(atoms) + [Atom(id, old(root.left).id)]
    {
      ghost var n := |ring| - 1;
      assert Linked(ring, n);
      PlacedLast(items, ring, atoms, id);
      ghost var k;
      r, k := Integrate(id, root.left, v);
    }

    /** The first alive position to the right, if any. */
    method NextAlive(pos: Position<V>, ghost i: nat) returns (r: Option<Position<V>>)
      requires Valid() && i < |ring| && ring[i] == pos
      ensures r == AliveFrom(ring, i + 1)
    {
      assert Linked(ring, i);
      var at := pos.right;
      ghost var k: nat := i + 1;
      while at != root && at.value == None
        invariant i < k <= |ring| && at == (if k == |ring| then root else ring[k])
        invariant AliveFrom(ring, k) == AliveFrom(ring, i + 1)
        decreases |ring| - k
      {
        assert Linked(ring, k);
        at := at.right;
        k := k + 1;
      }
      r := if at == root then None else Some(at);
    }

    /** The first alive position to the left, if any; what is left of the root is the end of the list. */
    method PrevAlive(pos: Position<V>, ghost i: nat) returns (r: Option<Position<V>>)
      requires Valid() && i < |ring| && ring[i] == pos
      ensures r == AliveUpTo(ring, if i == 0 then |ring| else i)
    {
      ghost var n: nat := if i == 0 then |ring| else i;
      assert Linked(ring, n - 1);
      r := AliveFromHere(pos.left, n - 1);
    }

    method AliveFromHere(pos: Position<V>, ghost i: nat) returns (r: Option<Position<V>>)
      requires Valid() && i < |ring| && ring[i] == pos
      ensures r == AliveUpTo(ring, i + 1)
    {
      var at := pos;
      ghost var k: nat := i;
      while at != root && at.value == None
        invariant k <= i && at == ring[k]
        invariant AliveUpTo(ring, k + 1) == AliveUpTo(ring, i + 1)
        decreases k
      {
        assert Linked(ring, k - 1);
        at := at.left;
        k := k - 1;
      }
      r := if at == root then None else Some(at);
    }
  }

  ghost predicate Dead<V>(ring: seq<Position<V>>, from: nat, to: nat)
    requires to <= |ring|
    reads ring
  {
    forall j :: from <= j < to ==> ring[j].value == None
  }

  /** The nearest alive position at or behind an index: all in front of it are dead. */
  ghost function AliveFrom<V>(ring: seq<Position<V>>, i: nat): (r: Option<Position<V>>)
    requires i <= |ring|
    reads ring
    ensures r == None ==> Dead(ring, i, |ring|)
    ensures r.Some? ==> exists k :: i <= k < |ring| && ring[k] == r.value && r.value.value.Some? && Dead(ring, i, k)
    decreases |ring| - i
  {
    if i == |ring| then None else if ring[i].value.Some? then Some(ring[i]) else AliveFrom(ring, i + 1)
  }

  /** The nearest alive position before an index, not counting the root. */
  ghost function AliveUpTo<V>(ring: seq<Position<V>>, i: nat): (r: Option<Position<V>>)
    requires 1 <= i <= |ring|
    reads ring
    ensures r == None ==> Dead(ring, 1, i)
    ensures r.Some? ==> exists k :: 1 <= k < i && ring[k] == r.value && r.value.value.Some? && Dead(ring, k + 1, i)
  {
    if i == 1 then None else if ring[i - 1].value.Some? then Some(ring[i - 1]) else AliveUpTo(ring, i - 1)
  }

  lemma {:induction false} IndexIn<V>(ring: seq<Position<V>>, p: Position<V>) returns (i: nat)
    requires p in ring
    ensures i < |ring| && ring[i] == p
  {
    i :| 0 <= i < |ring| && ring[i] == p;
  }

  ghost predicate Ring<V>(root: Position<V>, ring: seq<Position<V>>)
  {
    && 1 <= |ring| && ring[0] == root && root.id == LIST_START
    && forall i, j :: 0 <= i < j < |ring| ==> ring[i] != ring[j]
  }

  /** The position at `i` and its successor point at each other. */
  ghost predicate Linked<V>(ring: seq<Position<V>>, i: nat)
    requires i < |ring|
    reads ring
  {
    var next := if i + 1 == |ring| then 0 else i + 1;
    ring[i].right == ring[next] && ring[next].left == ring[i]
  }

  ghost predicate SameAtom<V>(p: Position<V>, a: Atom)
  {
    a == Atom(p.id, p.ref)
  }

  ghost predicate Shows<V>(ring: seq<Position<V>>, atoms: seq<Atom>)
  {
    && |ring| == |atoms| + 1 && Distinct(atoms)
    && forall i :: 0 <= i < |atoms| ==> SameAtom(ring[i + 1], atoms[i])
  }

  ghost predicate Files<V>(items: map<ID, Position<V>>, p: Position<V>)
  {
    p.id in items && items[p.id] == p && !IsRoot(p.id)
  }

  ghost predicate KnownIfFiled<V>(items: map<ID, Position<V>>, atoms: seq<Atom>, id: ID)
  {
    id in items ==> KnowsRef(atoms, id)
  }

  /** `items` names the root twice and every other position once. */
  ghost predicate Indexed<V>(items: map<ID, Position<V>>, ring: seq<Position<V>>, atoms: seq<Atom>)
    requires 1 <= |ring|
  {
    && LIST_START in items && items[LIST_START] == ring[0]
    && LIST_END in items && items[LIST_END] == ring[0]
    && (forall i :: 1 <= i < |ring| ==> Files(items, ring[i]))
    && (forall id :: KnownIfFiled(items, atoms, id))
  }

  /** Putting `p` behind the `k`-th position of the ring is the insert of module `Rga`. */
  lemma {:induction false} PlacedAt<V>(items: map<ID, Position<V>>, ring: seq<Position<V>>, atoms: seq<Atom>,
                    from: nat, k: nat, p: Position<V>)
    requires from <= k < |ring| && Shows(ring, atoms) && Indexed(items, ring, atoms) && ring[0].id == LIST_START
    requires p.ref == ring[from].id && p.id !in items && IsGap(atoms, from, k, p.id)
    ensures Shows(ring[..k + 1] + [p] + ring[k + 1..], Insert(atoms, Atom(p.id, p.ref)))
    ensures Indexed(items[p.id := p], ring[..k + 1] + [p] + ring[k + 1..], Insert(atoms, Atom(p.id, p.ref)))
  {
    var a := Atom(p.id, p.ref);
    var grown, atoms' := ring[..k + 1] + [p] + ring[k + 1..], atoms[..k] + [a] + atoms[k..];
    assert from > 0 ==> Files(items, ring[from]);
    InsertAt(atoms, from, k, a);
    InsertKeeps(atoms, a);
    forall i | 0 <= i < |atoms'|
      ensures SameAtom(grown[i + 1], atoms'[i])
    {
      if i != k {
        var j := if i < k then i else i - 1;
        assert atoms'[i] == atoms[j] && grown[i + 1] == ring[j + 1];
      }
    }
    GrownIndex(items, ring, atoms, k, p, atoms');
  }

  /** Behind the last position nothing is skipped. */
  lemma {:induction false} PlacedLast<V>(items: map<ID, Position<V>>, ring: seq<Position<V>>, atoms: seq<Atom>, id: ID)
    requires 1 <= |ring| && Shows(ring, atoms) && Indexed(items, ring, atoms) && ring[0].id == LIST_START
    ensures Insert(atoms, Atom(id, ring[|ring| - 1].id)) == atoms + [Atom(id, ring[|ring| - 1].id)]
  {
    var n := |atoms|;
    if n > 0 {
      assert Files(items, ring[n]) && SameAtom(ring[n], atoms[n - 1]);
    }
    InsertAt(atoms, n, n, Atom(id, ring[n].id));
  }

  lemma {:induction false} GrownIndex<V>(items: map<ID, Position<V>>, ring: seq<Position<V>>, atoms: seq<Atom>,
                      k: nat, p: Position<V>, atoms': seq<Atom>)
    requires k < |ring| && Indexed(items, ring, atoms) && p.id !in items
    requires forall id :: Has(atoms', id) <==> Has(atoms, id) || id == p.id
    ensures Indexed(items[p.id := p], ring[..k + 1] + [p] + ring[k + 1..], atoms')
  {
    var grown := ring[..k + 1] + [p] + ring[k + 1..];
    assert !IsRoot(p.id);
    forall i | 1 <= i < |grown|
      ensures Files(items[p.id := p], grown[i])
    {
      if i != k + 1 {
        var j := if i <= k then i else i - 1;
        assert grown[i] == ring[j] && Files(items, ring[j]);
      }
    }
    var items' := items[p.id := p];
    forall id
      ensures KnownIfFiled(items', atoms', id)
    {
      assert KnownIfFiled(items, atoms, id);
    }
  }
}

/** The order of an RGA sequence as a function of the inserts (backend/crdt/list.go).
    `RgaList` holds the linked list that computes it. */
module Rga {
  import opened Crdt

  const LIST_START := ID("", 0, 0)
  const LIST_END := ID("", -1, 0)

  /** Both sentinels name the root of the circular list. */
  predicate IsRoot(id: ID)
  {
    id == LIST_START || id == LIST_END
  }

  /** One insert: the new identifier and the identifier it was placed after. */
  datatype Atom = Atom(id: ID, ref: ID)

  ghost predicate Distinct(s: seq<Atom>)
  {
    forall i, j :: 0 <= i < j < |s| ==> s[i].id != s[j].id
  }

  ghost predicate Has(s: seq<Atom>, id: ID)
  {
    exists i :: 0 <= i < |s| && s[i].id == id
  }

  ghost predicate KnowsRef(s: seq<Atom>, ref: ID)
  {
    IsRoot(ref) || Has(s, ref)
  }

  /** Skip everything greater than the new atom, then put it down. */
  function Place(s: seq<Atom>, a: Atom): seq<Atom>
  {
    if s == [] || s[0].id.Less(a.id) then [a] + s else [s[0]] + Place(s[1..], a)
  }

  /** Walk to the atom called `ref`, then place behind it. */
  function PlaceAfter(s: seq<Atom>, ref: ID, a: Atom): seq<Atom>
  {
    if s == [] then [a]
    else if s[0].id == ref then [s[0]] + Place(s[1..], a)
    else [s[0]] + PlaceAfter(s[1..], ref, a)
  }

  function Insert(s: seq<Atom>, a: Atom): seq<Atom>
  {
    if IsRoot(a.ref) then Place(s, a) else PlaceAfter(s, a.ref, a)
  }

  function Run(s: seq<Atom>, ops: seq<Atom>): seq<Atom>
  {
    if ops == [] then s else Insert(Run(s, ops[..|ops| - 1]), ops[|ops| - 1])
  }

  // ---- What an insert does to the sequence ----

  /** `k` is where the scan from index `from` stops: everything skipped is greater,
      and the neighbour on the right, if any, is smaller. */
  ghost predicate IsGap(s: seq<Atom>, from: nat, k: nat, id: ID)
  {
    && from <= k <= |s|
    && (forall j :: from <= j < k ==> !s[j].id.Less(id))
    && (k < |s| ==> s[k].id.Less(id))
  }

  lemma {:induction false} GapInTail(s: seq<Atom>, from: nat, k: nat, id: ID)
    requires 0 < from <= k && IsGap(s, from, k, id)
    ensures IsGap(s[1..], from - 1, k - 1, id)
  {
    assert forall j :: 0 <= j < |s| - 1 ==> s[1..][j] == s[j + 1];
  }

  lemma {:induction false} SplitBehindHead(s: seq<Atom>, k: nat, a: Atom)
    requires 0 < k <= |s|
    ensures [s[0]] + (s[1..][..k - 1] + [a] + s[1..][k - 1..]) == s[..k] + [a] + s[k..]
  {
  }

  lemma {:induction false} PlaceAt(s: seq<Atom>, k: nat, a: Atom)
    requires IsGap(s, 0, k, a.id)
    ensures Place(s, a) == s[..k] + [a] + s[k..]
  {
    if k == 0 {
      assert s[..0] + [a] + s[0..] == [a] + s;
    } else {
      assert !s[0].id.Less(a.id) && IsGap(s, 1, k, a.id);
      GapInTail(s, 1, k, a.id);
      PlaceAt(s[1..], k - 1, a);
      SplitBehindHead(s, k, a);
    }
  }

  lemma {:induction false} PlaceAfterAt(s: seq<Atom>, r: nat, k: nat, a: Atom)
    requires Distinct(s) && r < |s| && IsGap(s, r + 1, k, a.id)
    ensures PlaceAfter(s, s[r].id, a) == s[..k] + [a] + s[k..]
  {
    var tail := s[1..];
    GapInTail(s, r + 1, k, a.id);
    SplitBehindHead(s, k, a);
    if r == 0 {
      PlaceAt(tail, k - 1, a);
    } else {
      assert forall j :: 0 <= j < |s| - 1 ==> tail[j] == s[j + 1];
      PlaceAfterAt(tail, r - 1, k - 1, a);
    }
  }

  /** The index at which the scan starts: just behind the reference. */
  ghost predicate StartsAt(s: seq<Atom>, ref: ID, from: nat)
  {
    if IsRoot(ref) then from == 0 else 1 <= from <= |s| && s[from - 1].id == ref
  }

  /** An insert puts the atom down at the first gap at or behind its reference whose right
      neighbour is smaller; the atoms already there keep their order. */
  lemma {:induction false} InsertAt(s: seq<Atom>, from: nat, k: nat, a: Atom)
    requires Distinct(s) && StartsAt(s, a.ref, from) && IsGap(s, from, k, a.id)
    ensures Insert(s, a) == s[..k] + [a] + s[k..]
  {
    if IsRoot(a.ref) {
      PlaceAt(s, k, a);
    } else {
      PlaceAfterAt(s, from - 1, k, a);
    }
  }

  lemma {:induction false} GapExists(s: seq<Atom>, from: nat, id: ID) returns (k: nat)
    requires from <= |s|
    ensures IsGap(s, from, k, id)
    decreases |s| - from
  {
    if from == |s| || s[from].id.Less(id) {
      k := from;
    } else {
      k := GapExists(s, from + 1, id);
    }
  }

  /** The index at which a known reference makes the scan start and the gap it ends in. */
  lemma {:induction false} InsertSplits(s: seq<Atom>, a: Atom) returns (from: nat, k: nat)
    requires Distinct(s) && KnowsRef(s, a.ref)
    ensures StartsAt(s, a.ref, from) && IsGap(s, from, k, a.id)
    ensures Insert(s, a) == s[..k] + [a] + s[k..]
  {
    if IsRoot(a.ref) {
      from := 0;
    } else {
      var i :| 0 <= i < |s| && s[i].id == a.ref;
      from := i + 1;
    }
    k := GapExists(s, from, a.id);
    InsertAt(s, from, k, a);
  }

  lemma {:induction false} InsertKeeps(s: seq<Atom>, a: Atom)
    requires Distinct(s) && KnowsRef(s, a.ref) && !Has(s, a.id)
    ensures Distinct(Insert(s, a))
    ensures forall id :: Has(Insert(s, a), id) <==> Has(s, id) || id == a.id
  {
    var from, k := InsertSplits(s, a);
    SplicedDistinct(s, k, a);
    forall id
      ensures Has(Insert(s, a), id) <==> Has(s, id) || id == a.id
    {
      SplicedMembers(s, k, a, id);
    }
  }

  lemma {:induction false} SplicedDistinct(s: seq<Atom>, k: nat, a: Atom)
    requires Distinct(s) && k <= |s| && !Has(s, a.id)
    ensures Distinct(s[..k] + [a] + s[k..])
  {
    var t := s[..k] + [a] + s[k..];
    forall i, j | 0 <= i < j < |t|
      ensures t[i].id != t[j].id
    {
      assert i != k ==> t[i] == s[if i < k then i else i - 1];
      assert j != k ==> t[j] == s[if j < k then j else j - 1];
    }
  }

  lemma {:induction false} SplicedMembers(s: seq<Atom>, k: nat, a: Atom, id: ID)
    requires k <= |s|
    ensures Has(s[..k] + [a] + s[k..], id) <==> Has(s, id) || id == a.id
  {
    var t := s[..k] + [a] + s[k..];
    assert t[k] == a;
    if Has(t, id) {
      var i :| 0 <= i < |t| && t[i].id == id;
      assert i != k ==> s[if i < k then i else i - 1].id == id;
    }
    if Has(s, id) {
      var i :| 0 <= i < |s| && s[i].id == id;
      assert t[if i < k then i else i + 1].id == id;
    }
  }

  // ---- Convergence ----

  lemma {:induction false} PlacePlace(s: seq<Atom>, a: Atom, b: Atom)
    requires a.id != b.id
    ensures Place(Place(s, a), b) == Place(Place(s, b), a)
  {
    IdTrichotomy(a.id, b.id);
    if s == [] {
      assert [a][1..] == [] && [b][1..] == [];
    } else {
      if s[0].id.Less(a.id) && a.id.Less(b.id) {
        IdTransitive(s[0].id, a.id, b.id);
      }
      if s[0].id.Less(b.id) && b.id.Less(a.id) {
        IdTransitive(s[0].id, b.id, a.id);
      }
      assert ([a] + s)[1..] == s && ([b] + s)[1..] == s;
      assert ([s[0]] + Place(s[1..], a))[1..] == Place(s[1..], a);
      assert ([s[0]] + Place(s[1..], b))[1..] == Place(s[1..], b);
      PlacePlace(s[1..], a, b);
    }
  }

  lemma {:induction false} PlacePlaceAfter(s: seq<Atom>, a: Atom, r: ID, b: Atom)
    requires a.id != b.id && a.id != r && Has(s, r)
    ensures Place(PlaceAfter(s, r, b), a) == PlaceAfter(Place(s, a), r, b)
  {
    assert ([a] + s)[1..] == s;
    var tail := if s[0].id == r then Place(s[1..], b) else PlaceAfter(s[1..], r, b);
    assert PlaceAfter(s, r, b) == [s[0]] + tail;
    assert ([s[0]] + tail)[1..] == tail;
    assert ([s[0]] + Place(s[1..], a))[1..] == Place(s[1..], a);
    if s[0].id == r {
      PlacePlace(s[1..], a, b);
    } else {
      HasTail(s, r);
      PlacePlaceAfter(s[1..], a, r, b);
    }
  }

  lemma {:induction false} HasTail(s: seq<Atom>, r: ID)
    requires Has(s, r) && s[0].id != r
    ensures Has(s[1..], r)
  {
    var i :| 0 <= i < |s| && s[i].id == r;
    assert s[1..][i - 1].id == r;
  }

  lemma {:induction false} PlaceAfterPlaceAfter(s: seq<Atom>, q: ID, a: Atom, r: ID, b: Atom)
    requires a.id != b.id && a.id != r && b.id != q && Has(s, q) && Has(s, r)
    ensures PlaceAfter(PlaceAfter(s, r, b), q, a) == PlaceAfter(PlaceAfter(s, q, a), r, b)
  {
    var tb := if s[0].id == r then Place(s[1..], b) else PlaceAfter(s[1..], r, b);
    var ta := if s[0].id == q then Place(s[1..], a) else PlaceAfter(s[1..], q, a);
    assert ([s[0]] + tb)[1..] == tb && ([s[0]] + ta)[1..] == ta;
    if s[0].id == q == r {
      PlacePlace(s[1..], a, b);
    } else if s[0].id == q {
      HasTail(s, r);
      PlacePlaceAfter(s[1..], a, r, b);
    } else if s[0].id == r {
      HasTail(s, q);
      PlacePlaceAfter(s[1..], b, q, a);
    } else {
      HasTail(s, q);
      HasTail(s, r);
      PlaceAfterPlaceAfter(s[1..], q, a, r, b);
    }
  }

  /** Two inserts neither of which refers to the other commute. */
  lemma {:induction false} InsertsCommute(s: seq<Atom>, a: Atom, b: Atom)
    requires a.id != b.id && a.ref != b.id && b.ref != a.id
    requires KnowsRef(s, a.ref) && KnowsRef(s, b.ref)
    requires !IsRoot(a.id) && !IsRoot(b.id)
    ensures Insert(Insert(s, a), b) == Insert(Insert(s, b), a)
  {
    if IsRoot(a.ref) && IsRoot(b.ref) {
      PlacePlace(s, a, b);
    } else if IsRoot(a.ref) {
      PlacePlaceAfter(s, a, b.ref, b);
    } else if IsRoot(b.ref) {
      PlacePlaceAfter(s, b, a.ref, a);
    } else {
      PlaceAfterPlaceAfter(s, a.ref, a, b.ref, b);
    }
  }

  /** A delivery: fresh, pairwise distinct identifiers, each insert behind its reference. */
  ghost predicate Delivery(s: seq<Atom>, ops: seq<Atom>)
  {
    && Distinct(ops)
    && (forall i :: 0 <= i < |ops| ==> !IsRoot(ops[i].id) && !Has(s, ops[i].id))
    && (forall i :: 0 <= i < |ops| ==> RefDelivered(s, ops, i))
  }

  ghost predicate RefDelivered(s: seq<Atom>, ops: seq<Atom>, i: nat)
    requires i < |ops|
  {
    KnowsRef(s, ops[i].ref) || Has(ops[..i], ops[i].ref)
  }

  lemma {:induction false} DeliveryPrefix(s: seq<Atom>, ops: seq<Atom>, n: nat)
    requires Delivery(s, ops) && n <= |ops|
    ensures Delivery(s, ops[..n])
  {
    forall i | 0 <= i < n
      ensures RefDelivered(s, ops[..n], i)
    {
      assert RefDelivered(s, ops, i) && ops[..n][..i] == ops[..i];
    }
  }

  /** A run keeps what was there and adds exactly the delivered identifiers. */
  lemma {:induction false} RunKeeps(s: seq<Atom>, ops: seq<Atom>)
    requires Distinct(s) && Delivery(s, ops)
    ensures Distinct(Run(s, ops))
    ensures forall id :: Has(Run(s, ops), id) <==> Has(s, id) || Has(ops, id)
  {
    if ops != [] {
      var n := |ops| - 1;
      var a := ops[n];
      DeliveryPrefix(s, ops, n);
      RunKeeps(s, ops[..n]);
      assert forall i :: 0 <= i < n ==> ops[..n][i] == ops[i];
      assert !Has(ops[..n], a.id);
      assert RefDelivered(s, ops, n) && KnowsRef(Run(s, ops[..n]), a.ref);
      InsertKeeps(Run(s, ops[..n]), a);
      forall id
        ensures Has(ops, id) <==> Has(ops[..n], id) || id == a.id
      {
        if Has(ops[..n], id) {
          var i :| 0 <= i < n && ops[..n][i].id == id;
          assert ops[i].id == id;
        }
        if Has(ops, id) {
          var i :| 0 <= i < |ops| && ops[i].id == id;
          assert i < n ==> ops[..n][i].id == id;
        }
      }
    }
  }

  lemma {:induction false} RunSnoc(s: seq<Atom>, ops: seq<Atom>, x: Atom)
    ensures Run(s, ops + [x]) == Insert(Run(s, ops), x)
  {
    assert (ops + [x])[..|ops|] == ops;
  }

  lemma {:induction false} RunConcat(s: seq<Atom>, u: seq<Atom>, v: seq<Atom>)
    ensures Run(s, u + v) == Run(Run(s, u), v)
  {
    if v == [] {
      assert u + v == u;
    } else {
      var n := |v| - 1;
      RunConcat(s, u, v[..n]);
      assert u + v == (u + v[..n]) + [v[n]] && v == v[..n] + [v[n]];
      RunSnoc(s, u + v[..n], v[n]);
      RunSnoc(Run(s, u), v[..n], v[n]);
    }
  }

  /** The last insert of a delivery: fresh, and nothing before it refers to it. */
  lemma {:induction false} LastIsFresh(s: seq<Atom>, rest: seq<Atom>, a: Atom, x: Atom)
    requires Delivery(s, rest + [a] + [x])
    ensures a.id != x.id && !IsRoot(a.id) && !IsRoot(x.id) && !Has(s, a.id) && a.ref != x.id
  {
    var all := rest + [a] + [x];
    var n := |rest|;
    assert all[n] == a && all[n + 1] == x && all[..n] == rest && RefDelivered(s, all, n);
    assert forall i :: 0 <= i < n ==> rest[i] == all[i] && all[i].id != all[n + 1].id;
    assert !Has(rest, x.id);
  }

  /** Leaving out the last but one insert, to which the last does not refer, leaves a delivery. */
  lemma {:induction false} DropLast(s: seq<Atom>, rest: seq<Atom>, a: Atom, x: Atom)
    requires Delivery(s, rest + [a] + [x]) && KnowsRef(s, x.ref)
    ensures Delivery(s, rest + [x])
  {
    var all, less := rest + [a] + [x], rest + [x];
    forall i, j | 0 <= i < j < |less|
      ensures less[i].id != less[j].id
    {
      assert less[i] == all[i];
      assert less[j] == all[if j < |rest| then j else j + 1];
    }
    forall i | 0 <= i < |less|
      ensures !IsRoot(less[i].id) && !Has(s, less[i].id)
      ensures RefDelivered(s, less, i)
    {
      var j := if i < |rest| then i else i + 1;
      assert less[i] == all[j] && RefDelivered(s, all, j);
      if i < |rest| {
        assert all[..i] == less[..i];
      }
    }
  }

  /** An insert whose reference is already there may as well come first. */
  lemma {:induction false} MoveToFront(s: seq<Atom>, ops: seq<Atom>, x: Atom)
    requires Distinct(s) && Delivery(s, ops + [x]) && KnowsRef(s, x.ref)
    ensures Run(s, ops + [x]) == Run(Insert(s, x), ops)
  {
    RunSnoc(s, ops, x);
    if ops != [] {
      var n := |ops| - 1;
      var a, rest := ops[n], ops[..n];
      assert ops == rest + [a];
      RunSnoc(s, rest, a);
      RunSnoc(s, rest, x);
      RunSnoc(Insert(s, x), rest, a);
      LastIsFresh(s, rest, a, x);
      DropLast(s, rest, a, x);
      MoveToFront(s, rest, x);
      RefsKnown(s, rest, a, x);
      InsertsCommute(Run(s, rest), a, x);
    }
  }

  lemma {:induction false} RefsKnown(s: seq<Atom>, rest: seq<Atom>, a: Atom, x: Atom)
    requires Distinct(s) && Delivery(s, rest + [a] + [x]) && KnowsRef(s, x.ref)
    ensures KnowsRef(Run(s, rest), a.ref) && KnowsRef(Run(s, rest), x.ref) && x.ref != a.id
  {
    var all := rest + [a] + [x];
    DeliveryPrefix(s, all, |rest|);
    assert all[..|rest|] == rest && all[|rest|] == a && RefDelivered(s, all, |rest|);
    RunKeeps(s, rest);
  }

  lemma {:induction false} RestDistinct(u: seq<Atom>, x: Atom, v: seq<Atom>)
    requires Distinct(u + [x] + v)
    ensures Distinct(u + v)
  {
    var all, less := u + [x] + v, u + v;
    forall i, j | 0 <= i < j < |less|
      ensures less[i].id != less[j].id
    {
      assert less[i] == all[if i < |u| then i else i + 1];
      assert less[j] == all[if j < |u| then j else j + 1];
    }
  }

  /** What is left of a delivery once one insert that refers into `s` was applied first. */
  lemma {:induction false} RestDelivers(s: seq<Atom>, u: seq<Atom>, x: Atom, v: seq<Atom>)
    requires Distinct(s) && Delivery(s, u + [x] + v) && KnowsRef(s, x.ref)
    ensures Distinct(Insert(s, x)) && Delivery(Insert(s, x), u + v)
  {
    var all, less := u + [x] + v, u + v;
    assert all[|u|] == x;
    InsertKeeps(s, x);
    RestDistinct(u, x, v);
    forall i | 0 <= i < |less|
      ensures !IsRoot(less[i].id) && !Has(Insert(s, x), less[i].id)
      ensures RefDelivered(Insert(s, x), less, i)
    {
      var j := if i < |u| then i else i + 1;
      assert less[i] == all[j] && RefDelivered(s, all, j);
      assert all[j].id != all[|u|].id;
      if Has(all[..j], less[i].ref) && less[i].ref != x.id {
        var k :| 0 <= k < j && all[..j][k].id == less[i].ref;
        assert k != |u|;
        assert less[..i][if k < |u| then k else k - 1] == all[k];
      }
    }
  }

  /** A delivery may start with any insert that refers into what is already there. */
  lemma {:induction false} StartWith(s: seq<Atom>, u: seq<Atom>, x: Atom, v: seq<Atom>)
    requires Distinct(s) && Delivery(s, u + [x] + v) && KnowsRef(s, x.ref)
    ensures Run(s, u + [x] + v) == Run(Insert(s, x), u + v)
    ensures Distinct(Insert(s, x)) && Delivery(Insert(s, x), u + v)
  {
    DeliveryPrefix(s, u + [x] + v, |u| + 1);
    assert (u + [x] + v)[..|u| + 1] == u + [x];
    MoveToFront(s, u, x);
    RunConcat(s, u + [x], v);
    RunConcat(Insert(s, x), u, v);
    RestDelivers(s, u, x, v);
  }

  /** The first insert of a delivery occurs in every other delivery of the same inserts. */
  lemma {:induction false} FirstOccurs(s: seq<Atom>, x: Atom, rest: seq<Atom>, ys: seq<Atom>)
    returns (u: seq<Atom>, v: seq<Atom>)
    requires Delivery(s, [x] + rest) && multiset([x] + rest) == multiset(ys)
    ensures KnowsRef(s, x.ref) && ys == u + [x] + v && multiset(rest) == multiset(u + v)
  {
    var xs := [x] + rest;
    assert xs[0] == x && xs[..0] == [] && RefDelivered(s, xs, 0);
    assert x in multiset(xs);
    var k :| 0 <= k < |ys| && ys[k] == x;
    u, v := ys[..k], ys[k + 1..];
    assert ys == u + [x] + v;
    assert multiset(xs) - multiset{x} == multiset(rest);
    assert multiset(u + [x] + v) - multiset{x} == multiset(u + v);
  }

  lemma {:induction false} StartWithFirst(s: seq<Atom>, x: Atom, rest: seq<Atom>)
    requires Distinct(s) && Delivery(s, [x] + rest) && KnowsRef(s, x.ref)
    ensures Run(s, [x] + rest) == Run(Insert(s, x), rest)
    ensures Distinct(Insert(s, x)) && Delivery(Insert(s, x), rest)
  {
    assert [] + [x] + rest == [x] + rest && [] + rest == rest;
    StartWith(s, [], x, rest);
  }

  lemma {:induction false} EmptyToo(xs: seq<Atom>, ys: seq<Atom>)
    requires multiset(xs) == multiset(ys) && xs == []
    ensures ys == []
  {
    assert |multiset(ys)| == |ys|;
  }

  /** Strong convergence: whatever the delivery orders, as long as each puts every insert behind
      its reference, the resulting sequences are equal. Identifiers need not exceed their references. */
  lemma {:induction false} Convergence(s: seq<Atom>, xs: seq<Atom>, ys: seq<Atom>)
    requires Distinct(s) && Delivery(s, xs) && Delivery(s, ys)
    requires multiset(xs) == multiset(ys)
    ensures Run(s, xs) == Run(s, ys)
    decreases |xs|
  {
    if xs == [] {
      EmptyToo(xs, ys);
    } else {
      var x, rest := xs[0], xs[1..];
      assert xs == [x] + rest;
      var u, v := FirstOccurs(s, x, rest, ys);
      StartWithFirst(s, x, rest);
      StartWith(s, u, x, v);
      Convergence(Insert(s, x), rest, u + v);
    }
  }

  /** A late insert lands where it would have landed had it been delivered in between. */
  lemma {:induction false} LateInsert(u: seq<Atom>, v: seq<Atom>, x: Atom)
    requires Delivery([], u + v) && KnowsRef(u, x.ref) && !IsRoot(x.id) && !Has(u + v, x.id)
    ensures Delivery([], u + [x] + v)
    ensures Insert(Run([], u + v), x) == Run([], u + [x] + v)
  {
    DeliveredInBetween(u, v, x);
    DeliveredInBetween(u + v, [], x) by {
      assert u + v + [] == u + v;
      if !IsRoot(x.ref) {
        var j :| 0 <= j < |u| && u[j].id == x.ref;
        assert (u + v)[j].id == x.ref;
      }
    }
    assert u + v + [x] + [] == u + v + [x];
    assert multiset(u + [x] + v) == multiset(u) + multiset{x} + multiset(v);
    assert multiset(u + v + [x]) == multiset(u) + multiset(v) + multiset{x};
    Convergence([], u + v + [x], u + [x] + v);
    RunSnoc([], u + v, x);
  }

  lemma {:induction false} DeliveredInBetween(u: seq<Atom>, v: seq<Atom>, x: Atom)
    requires Delivery([], u + v) && KnowsRef(u, x.ref) && !IsRoot(x.id) && !Has(u + v, x.id)
    ensures Delivery([], u + [x] + v)
  {
    var ops, all := u + v, u + [x] + v;
    assert ops[..|u|] == u && ops[|u|..] == v;
    SplicedDistinct(ops, |u|, x);
    forall i | 0 <= i < |all|
      ensures !IsRoot(all[i].id)
      ensures RefDelivered([], all, i)
    {
      if i == |u| {
        assert all[i] == x && all[..i] == u;
      } else {
        var j := if i < |u| then i else i - 1;
        assert all[i] == ops[j] && RefDelivered([], ops, j);
        if i < |u| {
          assert all[..i] == ops[..j];
        } else {
          assert ops[..j][..|u|] == u && all[..i] == u + [x] + ops[..j][|u|..];
          assert ops[..j] == u + ops[..j][|u|..];
          SplicedMembers(ops[..j], |u|, x, all[i].ref);
        }
      }
    }
  }

  // ---- What a converged sequence looks like ----

  /** The atom at `j` was inserted behind the one at `i`, or behind the root when `i == -1`. */
  ghost predicate RefersTo(s: seq<Atom>, i: int, j: int)
  {
    -1 <= i < j < |s| && if i == -1 then IsRoot(s[j].ref) else s[i].id == s[j].ref && !IsRoot(s[j].ref)
  }

  ghost predicate StandsBehindRef(s: seq<Atom>, j: int)
  {
    exists i :: RefersTo(s, i, j)
  }

  ghost predicate RefsBefore(s: seq<Atom>)
  {
    forall j :: 0 <= j < |s| ==> StandsBehindRef(s, j)
  }

  /** Between its reference and itself an atom only has greater ones. */
  ghost predicate OnlyGreaterBetween(s: seq<Atom>)
  {
    forall i, j, m :: RefersTo(s, i, j) && i < m < j ==> s[j].id.Less(s[m].id)
  }

  ghost predicate WellPlaced(s: seq<Atom>)
  {
    Distinct(s) && RefsBefore(s) && OnlyGreaterBetween(s) && forall i :: 0 <= i < |s| ==> !IsRoot(s[i].id)
  }

  lemma {:induction false} RefKnown(s: seq<Atom>, j: int)
    requires WellPlaced(s) && 0 <= j < |s|
    ensures KnowsRef(s, s[j].ref)
  {
    assert StandsBehindRef(s, j);
    var i :| RefersTo(s, i, j);
  }

  lemma {:induction false} InsertRefsBefore(s: seq<Atom>, from: nat, k: nat, a: Atom)
    requires WellPlaced(s) && !Has(s, a.id) && StartsAt(s, a.ref, from) && IsGap(s, from, k, a.id)
    ensures RefsBefore(s[..k] + [a] + s[k..])
  {
    var t := s[..k] + [a] + s[k..];
    forall j | 0 <= j < |t|
      ensures StandsBehindRef(t, j)
    {
      if j == k {
        assert RefersTo(t, from - 1, j);
      } else {
        var j' := if j < k then j else j - 1;
        assert StandsBehindRef(s, j');
        var i :| RefersTo(s, i, j');
        assert RefersTo(t, if i < k then i else i + 1, j);
      }
    }
  }

  lemma {:induction false} InsertOnlyGreaterBetween(s: seq<Atom>, from: nat, k: nat, a: Atom)
    requires WellPlaced(s) && !IsRoot(a.id) && !Has(s, a.id)
    requires StartsAt(s, a.ref, from) && IsGap(s, from, k, a.id)
    ensures OnlyGreaterBetween(s[..k] + [a] + s[k..])
  {
    var t := s[..k] + [a] + s[k..];
    forall i, j, m | RefersTo(t, i, j) && i < m < j
      ensures t[j].id.Less(t[m].id)
    {
      if j == k {
        assert i == from - 1 by {
          if i >= 0 { assert s[i].id == a.ref; }
        }
        IdTrichotomy(s[m].id, a.id);
      } else {
        var i', j' := if i < k then i else i - 1, if j < k then j else j - 1;
        if i == k {
          RefKnown(s, j');
          assert false;
        }
        assert RefersTo(s, i', j');
        if m == k {
          if j' > k {
            assert s[j'].id.Less(s[k].id);
            IdTransitive(s[j'].id, s[k].id, a.id);
          }
        } else {
          assert i' < (if m < k then m else m - 1) < j';
        }
      }
    }
  }

  lemma {:induction false} InsertWellPlaced(s: seq<Atom>, a: Atom)
    requires WellPlaced(s) && !IsRoot(a.id) && !Has(s, a.id) && KnowsRef(s, a.ref)
    ensures WellPlaced(Insert(s, a))
  {
    var from, k := InsertSplits(s, a);
    InsertKeeps(s, a);
    InsertRefsBefore(s, from, k, a);
    InsertOnlyGreaterBetween(s, from, k, a);
  }

  /** The last insert of a delivery is new to what the others leave, and its reference is not. */
  lemma {:induction false} LastIsNew(s: seq<Atom>, ops: seq<Atom>, n: nat)
    requires Distinct(s) && Delivery(s, ops) && n == |ops| - 1
    ensures Delivery(s, ops[..n]) && Distinct(Run(s, ops[..n]))
    ensures !IsRoot(ops[n].id) && !Has(Run(s, ops[..n]), ops[n].id) && KnowsRef(Run(s, ops[..n]), ops[n].ref)
  {
    DeliveryPrefix(s, ops, n);
    RunKeeps(s, ops[..n]);
    assert !Has(ops[..n], ops[n].id) && RefDelivered(s, ops, n);
  }

  /** Every run leaves every atom behind its reference, separated from it by greater atoms only. */
  lemma {:induction false} RunWellPlaced(s: seq<Atom>, ops: seq<Atom>)
    requires WellPlaced(s) && Delivery(s, ops)
    ensures WellPlaced(Run(s, ops))
  {
    if ops != [] {
      var n := |ops| - 1;
      LastIsNew(s, ops, n);
      RunWellPlaced(s, ops[..n]);
      InsertWellPlaced(Run(s, ops[..n]), ops[n]);
    }
  }

  // ---- Concurrent runs of inserts do not interleave ----

  ghost function RefIndex(s: seq<Atom>, j: int): (i: int)
    requires RefsBefore(s) && 0 <= j < |s|
    ensures RefersTo(s, i, j)
  {
    assert StandsBehindRef(s, j);
    var i :| RefersTo(s, i, j); i
  }

  /** The atom at `j` is the one at `i` or was inserted, step by step, behind it. */
  ghost predicate Descends(s: seq<Atom>, i: int, j: int)
    decreases j
  {
    && RefsBefore(s) && 0 <= i <= j < |s|
    && (i == j || (RefIndex(s, j) >= i && Descends(s, i, RefIndex(s, j))))
  }

  /** Lamport clocks: every identifier exceeds the one it refers to. */
  ghost predicate Lamport(s: seq<Atom>)
  {
    forall i, j :: RefersTo(s, i, j) && i >= 0 ==> s[i].id.Less(s[j].id)
  }

  lemma {:induction false} DescendantsAreGreater(s: seq<Atom>, i: int, j: int)
    requires Lamport(s) && i < j && Descends(s, i, j)
    ensures s[i].id.Less(s[j].id)
    decreases j
  {
    var r := RefIndex(s, j);
    if r > i {
      DescendantsAreGreater(s, i, r);
      IdTransitive(s[i].id, s[r].id, s[j].id);
    }
  }

  /** On the way from `j` up to `i`, `m` is either met or jumped over. */
  lemma {:induction false} MetOrJumped(s: seq<Atom>, i: int, m: int, j: int) returns (c: int)
    requires i < m < j && Descends(s, i, j)
    ensures m < c < |s| && Descends(s, i, c)
    ensures if RefIndex(s, c) == m then Descends(s, i, m) else i <= RefIndex(s, c) < m
    decreases j
  {
    var r := RefIndex(s, j);
    if r > m {
      c := MetOrJumped(s, i, m, r);
    } else {
      c := j;
    }
  }

  /** An atom and everything inserted behind it form one contiguous block. */
  lemma {:induction false} BlocksAreContiguous(s: seq<Atom>, i: int, m: int, j: int)
    requires WellPlaced(s) && Lamport(s) && i < m < j && Descends(s, i, j)
    ensures Descends(s, i, m)
    decreases m
  {
    var r := RefIndex(s, m);
    if r > i {
      BlocksAreContiguous(s, i, r, j);
    } else if r < i {
      var c := MetOrJumped(s, i, m, j);
      if RefIndex(s, c) != m {
        assert s[c].id.Less(s[m].id);
        assert s[m].id.Less(s[i].id);
        DescendantsAreGreater(s, i, c);
        IdTransitive(s[c].id, s[m].id, s[i].id);
        IdTrichotomy(s[c].id, s[i].id);
        assert false;
      }
    }
  }

  /** In every run of Lamport-stamped inserts, text typed in one go stays together:
      whatever lies between an insert and one made behind it was made behind it too. */
  lemma {:induction false} NoInterleaving(ops: seq<Atom>, i: int, m: int, j: int)
    requires Delivery([], ops)
    requires forall k :: 0 <= k < |ops| ==> IsRoot(ops[k].ref) || ops[k].ref.Less(ops[k].id)
    requires i < m < j && Descends(Run([], ops), i, j)
    ensures Descends(Run([], ops), i, m)
  {
    RunWellPlaced([], ops);
    RunMembers([], ops);
    assert forall k :: 0 <= k < |Run([], ops)| ==> Run([], ops)[k] in ops;
    BlocksAreContiguous(Run([], ops), i, m, j);
  }

  lemma {:induction false} RunMembers(s: seq<Atom>, ops: seq<Atom>)
    requires Distinct(s) && Delivery(s, ops)
    ensures forall a :: a in Run(s, ops) <==> a in s || a in ops
  {
    if ops != [] {
      var n := |ops| - 1;
      var a := ops[n];
      DeliveryPrefix(s, ops, n);
      RunMembers(s, ops[..n]);
      RunKeeps(s, ops[..n]);
      assert RefDelivered(s, ops, n);
      var from, k := InsertSplits(Run(s, ops[..n]), a);
      var t := Run(s, ops[..n]);
      assert t == t[..k] + t[k..];
      assert ops == ops[..n] + [a];
    }
  }
}

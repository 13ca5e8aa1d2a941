/** The depth-first iterator over the tree (backend/crdt/tree.go). */
module TreeWalk {
  import opened Options
  import opened Rga
  import opened MoveTree
  import opened LateMove
  import opened Siblings
  import opened TreeShape
  import opened TreeSteps
  import opened Trees

  /** What the iterator looks at: the lists of children and the links. */
  datatype View = View(children: map<string, seq<Atom>>, links: Links)
  {
    ghost function List(p: string): seq<Atom>
    {
      SiblingsOf(children, p)
    }
  }

  /** The node is alive at the `j`-th place of the list. */
  ghost predicate AtSlot(v: View, list: string, j: nat, n: string)
  {
    && j < |v.List(list)| && PosKey(list, v.List(list)[j].id) in v.links.alive
    && v.links.alive[PosKey(list, v.List(list)[j].id)] == n
  }

  ghost predicate HasSlot(v: View, n: string)
    requires n in v.links.pos
  {
    exists j: nat :: AtSlot(v, v.links.pos[n].list, j, n)
  }

  ghost predicate WellFormed(v: View)
  {
    && AliveIsCurrent(v.links) && ROOT !in v.links.pos
    && (forall p :: Distinct(v.List(p)))
    && (forall n :: n in v.links.pos ==> HasSlot(v, n))
  }

  /** The links without those that lead to dead positions. */
  ghost function Live(l: Links): Links
  {
    Links(map n | n in l.pos && AliveAt(l, n) :: l.pos[n], l.alive)
  }

  /** The links without that of the root. */
  ghost function BelowRoot(l: Links): Links
  {
    Links(l.pos - {ROOT}, map k | k in l.alive && l.alive[k] != ROOT :: l.alive[k])
  }

  ghost function ViewOf(children: map<string, seq<Atom>>, l: Links): View
  {
    View(children, BelowRoot(Live(l)))
  }

  lemma {:induction false} LiveIsCurrent(l: Links)
    requires AllCurrent(l)
    ensures AliveIsCurrent(BelowRoot(Live(l))) && ROOT !in BelowRoot(Live(l)).pos
  {
    var live := BelowRoot(Live(l));
    forall k | k in live.alive
      ensures live.alive[k] in live.pos && live.pos[live.alive[k]] == k
    {
      assert IsCurrent(l, k);
    }
  }

  /** Every tree, whatever moves it got, can be looked at. */
  lemma {:induction false} ShapedViewIsWellFormed(s: State)
    requires Shaped(s)
    ensures WellFormed(ViewOf(s.children, s.links))
  {
    var v := ViewOf(s.children, s.links);
    LiveIsCurrent(s.links);
    forall n | n in v.links.pos
      ensures HasSlot(v, n)
    {
      PlacedHasSlot(s, v, n);
    }
  }

  lemma {:induction false} PlacedHasSlot(s: State, v: View, n: string)
    requires Shaped(s) && v == ViewOf(s.children, s.links) && n in v.links.pos
    ensures HasSlot(v, n)
  {
    var key := v.links.pos[n];
    assert Listed(s.children, key);
    var j :| 0 <= j < |v.List(key.list)| && v.List(key.list)[j].id == key.id;
    assert AtSlot(v, key.list, j, n);
  }

  // ---- The root ----

  /** Without the link of the root the chains above it are gone, and nothing else is. */
  lemma {:induction false} UpBelowRoot(l: Links, x: string, k: nat)
    ensures Up(BelowRoot(l).pos, x, k).Some? ==> Up(BelowRoot(l).pos, x, k) == Up(l.pos, x, k)
    decreases k
  {
    if k > 0 && x in BelowRoot(l).pos {
      UpBelowRoot(l, l.pos[x].list, k - 1);
    }
  }

  /** What is below the root is so without the link of the root, unless the root is below itself. */
  lemma {:induction false} StillBelowRoot(l: Links, x: string)
    requires !Ancestor(l.pos, ROOT, ROOT)
    ensures Ancestor(BelowRoot(l).pos, ROOT, x) <==> Ancestor(l.pos, ROOT, x)
  {
    var cut := BelowRoot(l).pos;
    if Ancestor(cut, ROOT, x) {
      var k: nat :| Above(cut, ROOT, x, k);
      UpBelowRoot(l, x, k);
      assert Above(l.pos, ROOT, x, k);
    }
    if Ancestor(l.pos, ROOT, x) {
      var k: nat :| Above(l.pos, ROOT, x, k);
      var j := FirstMeeting(l.pos, ROOT, x, k);
      assert forall m :: m != ROOT ==> AgreeOn(l.pos, cut, m);
      UpAvoiding(l.pos, cut, ROOT, x, j);
      assert Above(cut, ROOT, x, j);
    }
  }

  /** A list that the walk comes to: that of the root or of a node below it. */
  ghost predicate OnWalk(v: View, list: string)
  {
    list == ROOT || Ancestor(v.links.pos, ROOT, list)
  }

  lemma {:induction false} WalkGoesDown(v: View, list: string)
    requires WellFormed(v) && OnWalk(v, list)
    ensures Grounded(v.links.pos, list)
  {
    assert EndsAfter(v.links.pos, ROOT, 1);
    if list != ROOT {
      var k: nat :| Above(v.links.pos, ROOT, list, k);
      GroundedBelow(v.links.pos, list, k);
    }
  }

  /** The root is not below itself: otherwise the walk would come to it again and again. */
  ghost predicate RootOnTop(l: Links)
  {
    AllCurrent(l) && !Ancestor(Live(l).pos, ROOT, ROOT)
  }

  lemma {:induction false} RootIsNotMet(children: map<string, seq<Atom>>, l: Links, k: PosKey)
    requires RootOnTop(l) && OnWalk(ViewOf(children, l), k.list)
    ensures k in l.alive <==> k in ViewOf(children, l).links.alive
  {
    if k in l.alive && l.alive[k] == ROOT {
      assert IsCurrent(l, k) && AliveAt(l, ROOT);
      AncestorStep(Live(l).pos, ROOT, ROOT);
      StillBelowRoot(Live(l), k.list);
    }
  }

  lemma {:induction false} SameFirstAlive(s: seq<Atom>, list: string, a: map<PosKey, string>, b: map<PosKey, string>,
                                          from: nat)
    requires from <= |s| && forall k: PosKey :: k.list == list ==> (k in a <==> k in b)
    ensures FirstAlive(s, list, a, from) == FirstAlive(s, list, b, from)
    ensures AliveBehind(s, list, a, from) == AliveBehind(s, list, b, from)
    decreases |s| - from
  {
    if from < |s| {
      SameFirstAlive(s, list, a, b, from + 1);
    }
  }

  /** On the walk the iterator meets what the view shows. */
  lemma {:induction false} SeesTheSame(children: map<string, seq<Atom>>, l: Links, list: string, from: nat)
    requires RootOnTop(l) && OnWalk(ViewOf(children, l), list) && from <= |SiblingsOf(children, list)|
    ensures AliveBehind(SiblingsOf(children, list), list, l.alive, from) ==
            AliveBehind(SiblingsOf(children, list), list, ViewOf(children, l).links.alive, from)
  {
    var alive := ViewOf(children, l).links.alive;
    forall k: PosKey | k.list == list
      ensures k in l.alive <==> k in alive
    {
      RootIsNotMet(children, l, k);
    }
    SameFirstAlive(SiblingsOf(children, list), list, l.alive, alive, from);
  }

  /** Nothing dangles in a tree that is the ordered replay of its moves, and the root is on top. */
  lemma {:induction false} FaithfulIsLive(s: State)
    requires Faithful(s)
    ensures Live(s.links) == s.links && RootOnTop(s.links)
  {
    ReplayInvariant(MovesOf(s.log));
    assert forall n :: n in s.links.pos ==> AliveAt(s.links, n);
    assert Live(s.links).pos == s.links.pos;
    assert Grounded(s.links.pos, ROOT);
    NotOwnAncestor(s.links.pos, ROOT);
  }

  lemma {:induction false} SlotOf(v: View, list: string, j: nat, n: string)
    requires WellFormed(v) && AtSlot(v, list, j, n)
    ensures n in v.links.pos && v.links.pos[n] == PosKey(list, v.List(list)[j].id)
  {
  }

  /** A node is at one place only. */
  lemma {:induction false} OneSlot(v: View, list: string, i: nat, j: nat, n: string)
    requires WellFormed(v) && AtSlot(v, list, i, n) && AtSlot(v, list, j, n)
    ensures i == j
  {
    SlotOf(v, list, i, n);
    SlotOf(v, list, j, n);
    assert Distinct(v.List(list));
  }

  // ---- How deep a node is ----

  ghost function CountUp(pos: map<string, PosKey>, n: string, fuel: nat): nat
    decreases fuel
  {
    if fuel == 0 || n !in pos then 0 else 1 + CountUp(pos, pos[n].list, fuel - 1)
  }

  ghost function Depth(pos: map<string, PosKey>, n: string): nat
  {
    CountUp(pos, n, |pos| + 1)
  }

  lemma {:induction false} CountUpEnds(pos: map<string, PosKey>, n: string, j: nat, k: nat)
    requires Up(pos, n, j) == None && Up(pos, n, k) == None
    ensures CountUp(pos, n, j) == CountUp(pos, n, k) && CountUp(pos, n, j) < j
    decreases j
  {
    if n in pos {
      CountUpEnds(pos, pos[n].list, j - 1, k - 1);
    }
  }

  lemma {:induction false} DepthStep(pos: map<string, PosKey>, n: string)
    requires Grounded(pos, n) && n in pos
    ensures Grounded(pos, pos[n].list) && Depth(pos, n) == Depth(pos, pos[n].list) + 1 <= |pos|
  {
    var k: nat :| EndsAfter(pos, n, k);
    assert EndsAfter(pos, pos[n].list, k - 1);
    EndsWithinSize(pos, n);
    EndsWithinSize(pos, pos[n].list);
    CountUpEnds(pos, n, |pos| + 1, |pos| + 1);
    CountUpEnds(pos, pos[n].list, |pos|, |pos| + 1);
  }

  lemma {:induction false} GroundedBelow(pos: map<string, PosKey>, x: string, k: nat)
    requires Up(pos, x, k).Some? && Grounded(pos, Up(pos, x, k).value)
    ensures Grounded(pos, x)
  {
    var e: nat :| EndsAfter(pos, Up(pos, x, k).value, e);
    UpCompose(pos, x, k, e);
    assert EndsAfter(pos, x, k + e);
  }

  lemma {:induction false} UpDepth(pos: map<string, PosKey>, x: string, k: nat)
    requires Grounded(pos, x) && Up(pos, x, k).Some?
    ensures Depth(pos, x) == k + Depth(pos, Up(pos, x, k).value)
    decreases k
  {
    if k > 0 {
      DepthStep(pos, x);
      UpDepth(pos, pos[x].list, k - 1);
    }
  }

  /** A node in a list from which the parents lead to an end is one level deeper. */
  lemma {:induction false} SlotDepth(v: View, list: string, j: nat, n: string)
    requires WellFormed(v) && AtSlot(v, list, j, n) && Grounded(v.links.pos, list)
    ensures Grounded(v.links.pos, n) && Depth(v.links.pos, n) == Depth(v.links.pos, list) + 1 <= |v.links.pos|
  {
    SlotOf(v, list, j, n);
    assert Up(v.links.pos, n, 1) == Some(list);
    GroundedBelow(v.links.pos, n, 1);
    DepthStep(v.links.pos, n);
  }

  // ---- The order of the walk ----

  /** The nodes of a list from an index on, each followed by everything below it. */
  ghost function Preorder(v: View, list: string, from: nat): seq<string>
    requires WellFormed(v) && from <= |v.List(list)| && Grounded(v.links.pos, list)
    decreases |v.links.pos| - Depth(v.links.pos, list), |v.List(list)| - from
  {
    var s := v.List(list);
    var k := FirstAlive(s, list, v.links.alive, from);
    if k == |s| then []
    else
      var n := v.links.alive[PosKey(list, s[k].id)];
      SlotDepth(v, list, k, n);
      [n] + Preorder(v, n, 0) + Preorder(v, list, k + 1)
  }

  /** `x` is, or is below, a node of the list from index `from` on. */
  ghost predicate Under(v: View, list: string, from: nat, x: string)
  {
    exists j: nat, k: nat, top :: UnderSlot(v, list, from, j, k, top, x)
  }

  ghost predicate UnderSlot(v: View, list: string, from: nat, j: nat, k: nat, top: string, x: string)
  {
    from <= j && AtSlot(v, list, j, top) && Up(v.links.pos, x, k) == Some(top)
  }

  lemma {:induction false} SameFrom(v: View, list: string, from: nat)
    requires WellFormed(v) && from <= |v.List(list)| && Grounded(v.links.pos, list)
    ensures Preorder(v, list, from) == Preorder(v, list, FirstAlive(v.List(list), list, v.links.alive, from))
  {
  }

  /** The walk from an alive slot on. */
  lemma {:induction false} FromSlot(v: View, list: string, i: nat, n: string)
    requires WellFormed(v) && AtSlot(v, list, i, n) && Grounded(v.links.pos, list)
    ensures Grounded(v.links.pos, n)
    ensures Preorder(v, list, i) == [n] + Preorder(v, n, 0) + Preorder(v, list, i + 1)
  {
    SlotDepth(v, list, i, n);
  }

  lemma {:induction false} NoneLeft(v: View, list: string, from: nat)
    requires WellFormed(v) && from <= |v.List(list)| && Grounded(v.links.pos, list)
    requires FirstAlive(v.List(list), list, v.links.alive, from) == |v.List(list)|
    ensures Preorder(v, list, from) == []
  {
  }

  lemma {:induction false} PreorderStep(v: View, list: string, from: nat, k: nat, n: string, x: string)
    requires WellFormed(v) && from <= |v.List(list)| && AtSlot(v, list, k, n) && Grounded(v.links.pos, list)
    requires k == FirstAlive(v.List(list), list, v.links.alive, from)
    ensures Grounded(v.links.pos, n)
    ensures x in Preorder(v, list, from) <==> x == n || x in Preorder(v, n, 0) || x in Preorder(v, list, k + 1)
  {
    SameFrom(v, list, from);
    FromSlot(v, list, k, n);
  }

  lemma {:induction false} NothingUnder(v: View, list: string, from: nat, x: string)
    requires WellFormed(v) && from <= |v.List(list)| && Grounded(v.links.pos, list)
    requires FirstAlive(v.List(list), list, v.links.alive, from) == |v.List(list)|
    ensures Preorder(v, list, from) == [] && !Under(v, list, from, x)
  {
    forall j: nat, k: nat, top
      ensures !UnderSlot(v, list, from, j, k, top, x)
    {
    }
  }

  lemma {:induction false} PreorderMembers(v: View, list: string, from: nat, x: string)
    requires WellFormed(v) && from <= |v.List(list)| && Grounded(v.links.pos, list)
    ensures x in Preorder(v, list, from) <==> Under(v, list, from, x)
    decreases |v.links.pos| - Depth(v.links.pos, list), |v.List(list)| - from
  {
    var k := FirstAlive(v.List(list), list, v.links.alive, from);
    if k == |v.List(list)| {
      NothingUnder(v, list, from, x);
    } else {
      var n := v.links.alive[PosKey(list, v.List(list)[k].id)];
      assert AtSlot(v, list, k, n);
      SlotDepth(v, list, k, n);
      PreorderMembers(v, n, 0, x);
      PreorderMembers(v, list, k + 1, x);
      PreorderJoined(v, list, from, k, n, x);
    }
  }

  lemma {:induction false} PreorderJoined(v: View, list: string, from: nat, k: nat, n: string, x: string)
    requires WellFormed(v) && from <= |v.List(list)| && AtSlot(v, list, k, n)
    requires Grounded(v.links.pos, list) && Grounded(v.links.pos, n)
    requires k == FirstAlive(v.List(list), list, v.links.alive, from)
    requires x in Preorder(v, n, 0) <==> Under(v, n, 0, x)
    requires x in Preorder(v, list, k + 1) <==> Under(v, list, k + 1, x)
    ensures x in Preorder(v, list, from) <==> Under(v, list, from, x)
  {
    BelowNode(v, n, x);
    UnderFirst(v, list, from, k, n, x);
    PreorderStep(v, list, from, k, n, x);
  }

  lemma {:induction false} UnderFirst(v: View, list: string, from: nat, k: nat, n: string, x: string)
    requires from <= k && AtSlot(v, list, k, n)
    requires forall j :: from <= j < k ==> PosKey(list, v.List(list)[j].id) !in v.links.alive
    ensures Under(v, list, from, x) <==> x == n || Ancestor(v.links.pos, n, x) || Under(v, list, k + 1, x)
  {
    var pos := v.links.pos;
    if Under(v, list, from, x) {
      var j: nat, i: nat, top :| UnderSlot(v, list, from, j, i, top, x);
      assert j >= k;
      if j == k {
        assert i > 0 ==> Above(pos, n, x, i);
      } else {
        assert UnderSlot(v, list, k + 1, j, i, top, x);
      }
    }
    if x == n {
      assert UnderSlot(v, list, from, k, 0, n, x);
    } else if Ancestor(pos, n, x) {
      var i: nat :| Above(pos, n, x, i);
      assert UnderSlot(v, list, from, k, i, n, x);
    } else if Under(v, list, k + 1, x) {
      var j: nat, i: nat, top :| UnderSlot(v, list, k + 1, j, i, top, x);
      assert UnderSlot(v, list, from, j, i, top, x);
    }
  }

  /** Being properly below a node is being under its list of children. */
  lemma {:induction false} BelowNode(v: View, n: string, x: string)
    requires WellFormed(v)
    ensures Under(v, n, 0, x) <==> Ancestor(v.links.pos, n, x)
  {
    var pos := v.links.pos;
    if Under(v, n, 0, x) {
      var j: nat, i: nat, top :| UnderSlot(v, n, 0, j, i, top, x);
      SlotOf(v, n, j, top);
      UpCompose(pos, x, i, 1);
      assert Above(pos, n, x, i + 1);
    }
    if Ancestor(pos, n, x) {
      var i: nat :| Above(pos, n, x, i);
      UpCompose(pos, x, i - 1, 1);
      var child := Up(pos, x, i - 1).value;
      assert HasSlot(v, child);
      var j: nat :| AtSlot(v, n, j, child);
      assert UnderSlot(v, n, 0, j, i - 1, child, x);
    }
  }

  ghost predicate NoRepeats(s: seq<string>)
  {
    forall i, j :: 0 <= i < j < |s| ==> s[i] != s[j]
  }

  /** Two nodes of the same list have nothing below them in common. */
  lemma {:induction false} SubtreesDisjoint(v: View, list: string, i: nat, m: string, a: nat,
                                            j: nat, n: string, b: nat, x: string)
    requires WellFormed(v) && AtSlot(v, list, i, m) && AtSlot(v, list, j, n) && Grounded(v.links.pos, list)
    requires Up(v.links.pos, x, a) == Some(m) && Up(v.links.pos, x, b) == Some(n)
    ensures i == j && m == n
  {
    SlotDepth(v, list, i, m);
    SlotDepth(v, list, j, n);
    GroundedBelow(v.links.pos, x, a);
    UpDepth(v.links.pos, x, a);
    UpDepth(v.links.pos, x, b);
    OneSlot(v, list, i, j, n);
  }

  lemma {:induction false} PreorderNoRepeats(v: View, list: string, from: nat)
    requires WellFormed(v) && from <= |v.List(list)| && Grounded(v.links.pos, list)
    ensures NoRepeats(Preorder(v, list, from))
    decreases |v.links.pos| - Depth(v.links.pos, list), |v.List(list)| - from
  {
    var k := FirstAlive(v.List(list), list, v.links.alive, from);
    if k < |v.List(list)| {
      var n := v.links.alive[PosKey(list, v.List(list)[k].id)];
      assert AtSlot(v, list, k, n);
      SlotDepth(v, list, k, n);
      PreorderNoRepeats(v, n, 0);
      PreorderNoRepeats(v, list, k + 1);
      JoinedNoRepeats(v, list, k, n, Preorder(v, n, 0), Preorder(v, list, k + 1));
      SameFrom(v, list, from);
      FromSlot(v, list, k, n);
    } else {
      NoneLeft(v, list, from);
    }
  }

  lemma {:induction false} JoinedNoRepeats(v: View, list: string, k: nat, n: string,
                                           below: seq<string>, behind: seq<string>)
    requires WellFormed(v) && AtSlot(v, list, k, n) && Grounded(v.links.pos, list) && Grounded(v.links.pos, n)
    requires below == Preorder(v, n, 0) && NoRepeats(below)
    requires behind == Preorder(v, list, k + 1) && NoRepeats(behind)
    ensures NoRepeats([n] + below + behind)
  {
    forall x | x in below
      ensures x != n && x !in behind
    {
      MetOnce(v, list, k, n, x);
    }
    NotAlsoLater(v, list, k, n, 0, n);
    ThreeParts([n], below, behind);
  }

  lemma {:induction false} MetOnce(v: View, list: string, k: nat, n: string, x: string)
    requires WellFormed(v) && AtSlot(v, list, k, n) && Grounded(v.links.pos, list) && Grounded(v.links.pos, n)
    requires x in Preorder(v, n, 0)
    ensures x != n && x !in Preorder(v, list, k + 1)
  {
    PreorderMembers(v, n, 0, x);
    BelowNode(v, n, x);
    NotOwnAncestor(v.links.pos, n);
    var a: nat :| Above(v.links.pos, n, x, a);
    NotAlsoLater(v, list, k, n, a, x);
  }

  lemma {:induction false} NotAlsoLater(v: View, list: string, k: nat, n: string, a: nat, x: string)
    requires WellFormed(v) && AtSlot(v, list, k, n) && Up(v.links.pos, x, a) == Some(n)
    requires Grounded(v.links.pos, list)
    ensures x !in Preorder(v, list, k + 1)
  {
    PreorderMembers(v, list, k + 1, x);
    if Under(v, list, k + 1, x) {
      var j: nat, b: nat, top :| UnderSlot(v, list, k + 1, j, b, top, x);
      SubtreesDisjoint(v, list, k, n, a, j, top, b, x);
    }
  }

  lemma {:induction false} ThreeParts(a: seq<string>, b: seq<string>, c: seq<string>)
    requires NoRepeats(a) && NoRepeats(b) && NoRepeats(c)
    requires forall x :: x in a ==> x !in b && x !in c
    requires forall x :: x in b ==> x !in c
    ensures NoRepeats(a + b + c)
  {
    var s := a + b + c;
    assert forall i :: 0 <= i < |a| ==> s[i] == a[i] && s[i] in a;
    assert forall i :: |a| <= i < |a| + |b| ==> s[i] == b[i - |a|] && s[i] in b;
    assert forall i :: |a| + |b| <= i < |s| ==> s[i] == c[i - |a| - |b|] && s[i] in c;
  }

  /** The walk from the root meets exactly the nodes whose parents lead to the root, each once. */
  lemma {:induction false} WalkIsComplete(v: View)
    requires WellFormed(v) && Grounded(v.links.pos, ROOT)
    ensures NoRepeats(Preorder(v, ROOT, 0))
    ensures forall x :: x in Preorder(v, ROOT, 0) <==> Ancestor(v.links.pos, ROOT, x)
  {
    PreorderNoRepeats(v, ROOT, 0);
    forall x
      ensures x in Preorder(v, ROOT, 0) <==> Ancestor(v.links.pos, ROOT, x)
    {
      PreorderMembers(v, ROOT, 0, x);
      BelowNode(v, ROOT, x);
    }
  }

  // ---- The iterator ----

  /** A stack entry is nil or an alive position of a list. */
  ghost predicate OnList(v: View, e: Option<PosKey>)
  {
    e.Some? ==> e.value in v.links.alive && Has(v.List(e.value.list), e.value.id)
  }

  ghost predicate AllOnLists(v: View, stack: seq<Option<PosKey>>)
  {
    forall i :: 0 <= i < |stack| ==> OnList(v, stack[i])
  }

  ghost function NextOf(v: View, key: PosKey): (e: Option<PosKey>)
    requires OnList(v, Some(key))
    ensures OnList(v, e)
  {
    AliveBehind(v.List(key.list), key.list, v.links.alive, LastBehind(v.List(key.list), key.id).value)
  }

  ghost function FirstChild(v: View, n: string): (e: Option<PosKey>)
    ensures OnList(v, e)
  {
    AliveBehind(v.List(n), n, v.links.alive, 0)
  }

  /** The stack behind a position whose node is met: what is next to it, and the children on top. */
  ghost function Descended(v: View, front: seq<Option<PosKey>>, key: PosKey): (stack: seq<Option<PosKey>>)
    requires AllOnLists(v, front) && OnList(v, Some(key))
    ensures AllOnLists(v, stack)
  {
    var below := front + [NextOf(v, key)];
    if v.links.alive[key] in v.children then below + [FirstChild(v, v.links.alive[key])] else below
  }

  /** One call of `Next`: the node it gives, and the stack it leaves. */
  ghost function StepOf(v: View, stack: seq<Option<PosKey>>): (r: (Option<string>, seq<Option<PosKey>>))
    requires AllOnLists(v, stack)
    ensures AllOnLists(v, r.1)
  {
    if stack == [] then (None, [])
    else
      var front := stack[..|stack| - 1];
      match stack[|stack| - 1]
      case None => StepOf(v, front)
      case Some(key) => (Some(v.links.alive[key]), Descended(v, front, key))
  }

  /** An alive position in a list that the walk comes to. */
  ghost predicate OnStack(v: View, e: Option<PosKey>)
  {
    OnList(v, e) && (e.Some? ==> OnWalk(v, e.value.list))
  }

  /** What is still to come from one entry of the stack. */
  ghost function RestFrom(v: View, e: Option<PosKey>): seq<string>
    requires WellFormed(v) && OnStack(v, e)
  {
    match e
    case None => []
    case Some(key) =>
      WalkGoesDown(v, key.list);
      Preorder(v, key.list, LastBehind(v.List(key.list), key.id).value - 1)
  }

  ghost predicate StackOk(v: View, stack: seq<Option<PosKey>>)
  {
    forall i :: 0 <= i < |stack| ==> OnStack(v, stack[i])
  }

  ghost function Remaining(v: View, stack: seq<Option<PosKey>>): seq<string>
    requires WellFormed(v) && StackOk(v, stack)
  {
    if stack == [] then []
    else RestFrom(v, stack[|stack| - 1]) + Remaining(v, stack[..|stack| - 1])
  }

  lemma {:induction false} BehindIndex(s: seq<Atom>, k: nat)
    requires Distinct(s) && k < |s|
    ensures Has(s, s[k].id) && LastBehind(s, s[k].id) == Some(k + 1)
  {
    var j := LastBehind(s, s[k].id).value - 1;
    assert s[j].id == s[k].id;
  }

  lemma {:induction false} RestFromSlot(v: View, key: PosKey, k: nat)
    requires WellFormed(v) && OnWalk(v, key.list) && Grounded(v.links.pos, key.list)
    requires key in v.links.alive && k < |v.List(key.list)| && v.List(key.list)[k].id == key.id
    ensures OnStack(v, Some(key)) && RestFrom(v, Some(key)) == Preorder(v, key.list, k)
  {
    BehindIndex(v.List(key.list), k);
  }

  /** Starting at the first alive position behind an index is starting at the index. */
  lemma {:induction false} RestFromAlive(v: View, list: string, from: nat)
    requires WellFormed(v) && from <= |v.List(list)| && OnWalk(v, list) && Grounded(v.links.pos, list)
    ensures OnStack(v, AliveBehind(v.List(list), list, v.links.alive, from))
    ensures RestFrom(v, AliveBehind(v.List(list), list, v.links.alive, from)) == Preorder(v, list, from)
  {
    var s := v.List(list);
    var k := FirstAlive(s, list, v.links.alive, from);
    if k < |s| {
      SameFrom(v, list, from);
      RestFromSlot(v, PosKey(list, s[k].id), k);
    } else {
      NoneLeft(v, list, from);
    }
  }

  lemma {:induction false} RemainingSnoc(v: View, front: seq<Option<PosKey>>, e: Option<PosKey>)
    requires WellFormed(v) && StackOk(v, front) && OnStack(v, e)
    ensures StackOk(v, front + [e]) && Remaining(v, front + [e]) == RestFrom(v, e) + Remaining(v, front)
  {
    assert (front + [e])[..|front|] == front;
  }

  lemma {:induction false} ChildOnWalk(v: View, list: string, i: nat, n: string)
    requires WellFormed(v) && AtSlot(v, list, i, n) && OnWalk(v, list)
    ensures OnWalk(v, n)
  {
    SlotOf(v, list, i, n);
    AncestorStep(v.links.pos, ROOT, n);
  }

  lemma {:induction false} NextAndChild(v: View, list: string, i: nat, n: string)
    requires WellFormed(v) && AtSlot(v, list, i, n) && OnWalk(v, list)
    ensures
      var next, child := AliveBehind(v.List(list), list, v.links.alive, i + 1), FirstChild(v, n);
      && Grounded(v.links.pos, list) && Grounded(v.links.pos, n) && OnStack(v, next) && OnStack(v, child)
      && RestFrom(v, next) == Preorder(v, list, i + 1) && RestFrom(v, child) == Preorder(v, n, 0)
  {
    WalkGoesDown(v, list);
    ChildOnWalk(v, list, i, n);
    WalkGoesDown(v, n);
    RestFromAlive(v, list, i + 1);
    RestFromAlive(v, n, 0);
  }

  /** From a position come its node, what is below the node and what is behind the position. */
  lemma {:induction false} RestStep(v: View, key: PosKey)
    requires WellFormed(v) && OnStack(v, Some(key))
    ensures
      var n, next, child := v.links.alive[key], NextOf(v, key), FirstChild(v, v.links.alive[key]);
      && OnStack(v, next) && OnStack(v, child)
      && RestFrom(v, Some(key)) == [n] + RestFrom(v, child) + RestFrom(v, next)
      && (v.List(n) == [] ==> RestFrom(v, child) == [])
  {
    var n, i := v.links.alive[key], LastBehind(v.List(key.list), key.id).value - 1;
    assert AtSlot(v, key.list, i, n);
    NextAndChild(v, key.list, i, n);
    FromSlot(v, key.list, i, n);
  }

  /** What one step makes of the stack, with and without a list of children to descend into. */
  lemma {:induction false} Stepped(v: View, front: seq<Option<PosKey>>, key: PosKey)
    requires WellFormed(v) && StackOk(v, front) && OnStack(v, Some(key))
    ensures
      var n, next, child := v.links.alive[key], NextOf(v, key), FirstChild(v, v.links.alive[key]);
      && StackOk(v, front + [Some(key)]) && StackOk(v, front + [next]) && StackOk(v, front + [next] + [child])
      && Remaining(v, front + [Some(key)]) == [n] + Remaining(v, front + [next] + [child])
      && (v.List(n) == [] ==> Remaining(v, front + [Some(key)]) == [n] + Remaining(v, front + [next]))
  {
    var n, next, child := v.links.alive[key], NextOf(v, key), FirstChild(v, v.links.alive[key]);
    RestStep(v, key);
    RemainingSnoc(v, front, Some(key));
    RemainingSnoc(v, front, next);
    RemainingSnoc(v, front + [next], child);
    Regroup([n], RestFrom(v, child), RestFrom(v, next), Remaining(v, front));
  }

  lemma {:induction false} BlockOnWalk(v: View, key: PosKey)
    requires WellFormed(v) && OnStack(v, Some(key))
    ensures OnWalk(v, v.links.alive[key])
  {
    var i := LastBehind(v.List(key.list), key.id).value - 1;
    assert AtSlot(v, key.list, i, v.links.alive[key]);
    ChildOnWalk(v, key.list, i, v.links.alive[key]);
  }

  lemma {:induction false} Regroup(a: seq<string>, b: seq<string>, c: seq<string>, d: seq<string>)
    ensures a + b + c + d == a + (b + (c + d))
    ensures b == [] ==> a + b + c + d == a + (c + d)
  {
  }

  lemma {:induction false} SplitLast<T>(s: seq<T>)
    requires s != []
    ensures s == s[..|s| - 1] + [s[|s| - 1]]
  {
  }

  /** With the first node below the root on the stack, the whole walk is still to come. */
  lemma {:induction false} StartsComplete(v: View)
    requires WellFormed(v)
    ensures StackOk(v, [FirstChild(v, ROOT)])
    ensures NoRepeats(Remaining(v, [FirstChild(v, ROOT)]))
    ensures forall x :: x in Remaining(v, [FirstChild(v, ROOT)]) <==> Ancestor(v.links.pos, ROOT, x)
  {
    var first := FirstChild(v, ROOT);
    WalkGoesDown(v, ROOT);
    RestFromAlive(v, ROOT, 0);
    RemainingSnoc(v, [], first);
    assert [] + [first] == [first];
    assert Remaining(v, [first]) == Preorder(v, ROOT, 0) + [];
    WalkIsComplete(v);
  }

  // ---- Steps of the iterator, and what is still to come ----

  ghost function AllOf(children: map<string, seq<Atom>>, l: Links): View
  {
    View(children, l)
  }

  lemma {:induction false} ListedHere(children: map<string, seq<Atom>>, l: Links, stack: seq<Option<PosKey>>)
    requires StackOk(ViewOf(children, l), stack)
    ensures AllOnLists(AllOf(children, l), stack)
  {
    forall i | 0 <= i < |stack|
      ensures OnList(AllOf(children, l), stack[i])
    {
      assert OnStack(ViewOf(children, l), stack[i]);
    }
  }

  /** The iterator descends into what the view shows. */
  lemma {:induction false} DescendsAlike(children: map<string, seq<Atom>>, l: Links, front: seq<Option<PosKey>>,
                                         key: PosKey)
    requires RootOnTop(l) && WellFormed(ViewOf(children, l))
    requires AllOnLists(AllOf(children, l), front) && AllOnLists(ViewOf(children, l), front)
    requires OnStack(ViewOf(children, l), Some(key))
    ensures l.alive[key] == ViewOf(children, l).links.alive[key]
    ensures Descended(AllOf(children, l), front, key) == Descended(ViewOf(children, l), front, key)
  {
    var v := ViewOf(children, l);
    BlockOnWalk(v, key);
    SeesTheSame(children, l, key.list, LastBehind(v.List(key.list), key.id).value);
    SeesTheSame(children, l, v.links.alive[key], 0);
  }

  /** With the root on top, a call gives the first node of what is to come, and leaves the others. */
  lemma {:induction false} StepYields(children: map<string, seq<Atom>>, l: Links, stack: seq<Option<PosKey>>)
    requires RootOnTop(l) && WellFormed(ViewOf(children, l)) && StackOk(ViewOf(children, l), stack)
    ensures AllOnLists(AllOf(children, l), stack)
    ensures
      var v, (r, rest) := ViewOf(children, l), StepOf(AllOf(children, l), stack);
      && StackOk(v, rest) && (r == None ==> rest == [])
      && Remaining(v, stack) == if r.Some? then [r.value] + Remaining(v, rest) else []
  {
    var v := ViewOf(children, l);
    ListedHere(children, l, stack);
    if stack != [] {
      var front, top := stack[..|stack| - 1], stack[|stack| - 1];
      SplitLast(stack);
      assert OnStack(v, top);
      if top == None {
        RemainingSnoc(v, front, top);
        StepYields(children, l, front);
      } else {
        ListedHere(children, l, front);
        Stepped(v, front, top.value);
        DescendsAlike(children, l, front, top.value);
      }
    }
  }

  // ---- The whole walk ----

  /** The stack after a number of calls. */
  ghost function StackAfter(v: View, stack: seq<Option<PosKey>>, k: nat): (rest: seq<Option<PosKey>>)
    requires AllOnLists(v, stack)
    ensures AllOnLists(v, rest)
    decreases k
  {
    if k == 0 then stack else StackAfter(v, StepOf(v, stack).1, k - 1)
  }

  /** What the call after so many others gives. */
  ghost function YieldAt(v: View, stack: seq<Option<PosKey>>, k: nat): Option<string>
    requires AllOnLists(v, stack)
  {
    StepOf(v, StackAfter(v, stack, k)).0
  }

  lemma {:induction false} StackNext(v: View, stack: seq<Option<PosKey>>, rest: seq<Option<PosKey>>, k: nat)
    requires k > 0 && AllOnLists(v, stack) && rest == StepOf(v, stack).1
    ensures StackAfter(v, stack, k) == StackAfter(v, rest, k - 1)
  {
  }

  lemma {:induction false} YieldNext(v: View, stack: seq<Option<PosKey>>, rest: seq<Option<PosKey>>, k: nat)
    requires k > 0 && AllOnLists(v, stack) && rest == StepOf(v, stack).1
    ensures YieldAt(v, stack, k) == YieldAt(v, rest, k - 1)
  {
  }

  /** The calls give what is to come in order, and then nothing. */
  lemma {:induction false} WalkYields(children: map<string, seq<Atom>>, l: Links, stack: seq<Option<PosKey>>, k: nat)
    requires RootOnTop(l) && WellFormed(ViewOf(children, l)) && StackOk(ViewOf(children, l), stack)
    ensures AllOnLists(AllOf(children, l), stack)
    ensures
      var rest := Remaining(ViewOf(children, l), stack);
      YieldAt(AllOf(children, l), stack, k) == if k < |rest| then Some(rest[k]) else None
    decreases k
  {
    StepYields(children, l, stack);
    var v, rest := AllOf(children, l), StepOf(AllOf(children, l), stack).1;
    if k > 0 {
      YieldNext(v, stack, rest, k);
      WalkYields(children, l, rest, k - 1);
    }
  }

  /** A node on a cycle of parents has a child on it. */
  lemma {:induction false} CycleGoesOn(pos: map<string, PosKey>, n: string) returns (c: string)
    requires Ancestor(pos, n, n)
    ensures c in pos && pos[c].list == n && Ancestor(pos, c, c)
  {
    var k: nat :| Above(pos, n, n, k);
    UpCompose(pos, n, k - 1, 1);
    c := Up(pos, n, k - 1).value;
    UpCompose(pos, c, 1, k - 1);
    assert Above(pos, c, c, k);
  }

  /** From the entry on there is an alive position in its list that holds a node on a cycle. */
  ghost predicate LeadsToCycle(v: View, e: Option<PosKey>)
  {
    e.Some? && exists i: nat, j: nat, n :: CycleAt(v, e.value, i, j, n)
  }

  ghost predicate CycleAt(v: View, key: PosKey, i: nat, j: nat, n: string)
  {
    && i <= j && AtSlot(v, key.list, j, n) && v.List(key.list)[i].id == key.id
    && Ancestor(Live(v.links).pos, n, n)
  }

  ghost predicate OnCycle(v: View, stack: seq<Option<PosKey>>)
  {
    stack != [] && (LeadsToCycle(v, stack[|stack| - 1]) || OnCycle(v, stack[..|stack| - 1]))
  }

  lemma {:induction false} OnCycleSnoc(v: View, front: seq<Option<PosKey>>, e: Option<PosKey>)
    ensures OnCycle(v, front + [e]) <==> LeadsToCycle(v, e) || OnCycle(v, front)
  {
    assert (front + [e])[..|front|] == front;
  }

  /** The first alive position behind an index leads to a cycle if one behind it does. */
  lemma {:induction false} AliveLeads(v: View, list: string, from: nat, j: nat, n: string)
    requires from <= j && AtSlot(v, list, j, n) && Ancestor(Live(v.links).pos, n, n)
    ensures LeadsToCycle(v, AliveBehind(v.List(list), list, v.links.alive, from))
  {
    var i := FirstAlive(v.List(list), list, v.links.alive, from);
    assert CycleAt(v, PosKey(list, v.List(list)[i].id), i, j, n);
  }

  lemma {:induction false} ChildrenLead(s: State, v: View, n: string)
    requires Shaped(s) && v == AllOf(s.children, s.links) && Ancestor(Live(s.links).pos, n, n)
    ensures n in v.children && LeadsToCycle(v, FirstChild(v, n))
  {
    var c := CycleGoesOn(Live(s.links).pos, n);
    assert Listed(s.children, s.links.pos[c]);
    var j :| 0 <= j < |v.List(n)| && v.List(n)[j].id == s.links.pos[c].id;
    assert AtSlot(v, n, j, c);
    AliveLeads(v, n, 0, j, c);
  }

  lemma {:induction false} LeadsOn(v: View, front: seq<Option<PosKey>>, key: PosKey, i: nat, j: nat, n: string)
    requires AllOnLists(v, front) && OnList(v, Some(key)) && Distinct(v.List(key.list)) && CycleAt(v, key, i, j, n)
    requires j == i ==> n in v.children && LeadsToCycle(v, FirstChild(v, n))
    ensures OnCycle(v, Descended(v, front, key))
  {
    var below := front + [NextOf(v, key)];
    BehindIndex(v.List(key.list), i);
    if j > i {
      AliveLeads(v, key.list, i + 1, j, n);
      OnCycleSnoc(v, front, NextOf(v, key));
    }
    OnCycleSnoc(v, below, FirstChild(v, v.links.alive[key]));
  }

  lemma {:induction false} DescendsOnCycle(s: State, v: View, front: seq<Option<PosKey>>, key: PosKey)
    requires Shaped(s) && v == AllOf(s.children, s.links) && AllOnLists(v, front) && OnList(v, Some(key))
    requires LeadsToCycle(v, Some(key))
    ensures OnCycle(v, Descended(v, front, key))
  {
    var i: nat, j: nat, n :| CycleAt(v, key, i, j, n);
    if j == i {
      ChildrenLead(s, v, n);
    }
    LeadsOn(v, front, key, i, j, n);
  }

  lemma {:induction false} StaysBelow(v: View, front: seq<Option<PosKey>>, key: PosKey)
    requires AllOnLists(v, front) && OnList(v, Some(key)) && OnCycle(v, front)
    ensures OnCycle(v, Descended(v, front, key))
  {
    OnCycleSnoc(v, front, NextOf(v, key));
    OnCycleSnoc(v, front + [NextOf(v, key)], FirstChild(v, v.links.alive[key]));
  }

  /** A walk that has a cycle ahead gives a node, and has a cycle ahead again. */
  lemma {:induction false} CycleStays(s: State, v: View, stack: seq<Option<PosKey>>)
    requires Shaped(s) && v == AllOf(s.children, s.links) && AllOnLists(v, stack) && OnCycle(v, stack)
    ensures StepOf(v, stack).0.Some? && OnCycle(v, StepOf(v, stack).1)
  {
    var front, top := stack[..|stack| - 1], stack[|stack| - 1];
    if top == None {
      CycleStays(s, v, front);
    } else if LeadsToCycle(v, top) {
      DescendsOnCycle(s, v, front, top.value);
    } else {
      StaysBelow(v, front, top.value);
    }
  }

  lemma {:induction false} CycleAhead(s: State, v: View, stack: seq<Option<PosKey>>, k: nat)
    requires Shaped(s) && v == AllOf(s.children, s.links) && AllOnLists(v, stack) && OnCycle(v, stack)
    ensures OnCycle(v, StackAfter(v, stack, k))
    decreases k
  {
    if k > 0 {
      var rest := StepOf(v, stack).1;
      StackNext(v, stack, rest, k);
      CycleStays(s, v, stack);
      CycleAhead(s, v, rest, k - 1);
    }
  }

  /** However many calls are made, there is one more node to give. */
  lemma {:induction false} CycleNeverEnds(s: State, v: View, stack: seq<Option<PosKey>>, k: nat)
    requires Shaped(s) && v == AllOf(s.children, s.links) && AllOnLists(v, stack) && OnCycle(v, stack)
    ensures YieldAt(v, stack, k).Some?
  {
    CycleAhead(s, v, stack, k);
    CycleStays(s, v, StackAfter(v, stack, k));
  }

  /** Nothing more comes after so many calls. */
  ghost predicate EndsBy(v: View, k: nat)
  {
    YieldAt(v, [FirstChild(v, ROOT)], k) == None
  }

  /** A root below itself is met again and again: the walk never ends. */
  lemma {:induction false} WalkNeverEnds(s: State, k: nat)
    requires Shaped(s) && Ancestor(Live(s.links).pos, ROOT, ROOT)
    ensures !EndsBy(AllOf(s.children, s.links), k)
  {
    var v := AllOf(s.children, s.links);
    var stack := [FirstChild(v, ROOT)];
    ChildrenLead(s, v, ROOT);
    CycleNeverEnds(s, v, stack, k);
  }

  /** The walk comes to an end exactly if the root is not below itself over alive positions. If it does end,
      it has given everything below the root, each node once. */
  lemma {:induction false} WalkEndsExactly(s: State)
    requires Shaped(s)
    ensures
      var v, below := AllOf(s.children, s.links), Live(s.links).pos;
      && ((exists k :: EndsBy(v, k)) <==> !Ancestor(below, ROOT, ROOT))
      && (!Ancestor(below, ROOT, ROOT) ==> exists nodes :: WholeWalk(v, below, nodes))
  {
    var v, below := AllOf(s.children, s.links), Live(s.links).pos;
    if Ancestor(below, ROOT, ROOT) {
      forall k: nat
        ensures !EndsBy(v, k)
      {
        WalkNeverEnds(s, k);
      }
    } else {
      WholeWalkEnds(s);
      var nodes :| WholeWalk(v, below, nodes);
      assert EndsBy(v, |nodes|);
    }
  }

  /** The calls give these nodes and then nothing: those below the root, each once. */
  ghost predicate WholeWalk(v: View, below: map<string, PosKey>, nodes: seq<string>)
  {
    && NoRepeats(nodes) && (forall x :: x in nodes <==> Ancestor(below, ROOT, x))
    && (forall k: nat :: YieldAt(v, [FirstChild(v, ROOT)], k) == if k < |nodes| then Some(nodes[k]) else None)
  }

  lemma {:induction false} WholeWalkEnds(s: State)
    requires Shaped(s) && !Ancestor(Live(s.links).pos, ROOT, ROOT)
    ensures exists nodes :: WholeWalk(AllOf(s.children, s.links), Live(s.links).pos, nodes)
  {
    var v, seen := AllOf(s.children, s.links), ViewOf(s.children, s.links);
    ShapedViewIsWellFormed(s);
    SeesTheSame(s.children, s.links, ROOT, 0);
    StartsComplete(seen);
    assert FirstChild(v, ROOT) == FirstChild(seen, ROOT);
    var stack := [FirstChild(v, ROOT)];
    var nodes := Remaining(seen, stack);
    forall k: nat
      ensures YieldAt(v, stack, k) == if k < |nodes| then Some(nodes[k]) else None
    {
      WalkYields(s.children, s.links, stack, k);
    }
    forall x
      ensures x in nodes <==> Ancestor(Live(s.links).pos, ROOT, x)
    {
      StillBelowRoot(Live(s.links), x);
    }
    assert WholeWalk(v, Live(s.links).pos, nodes);
  }

  class TreeIterator {
    const doc: Tree
    var stack: seq<Option<PosKey>>

    ghost function Seen(): View
      reads doc
    {
      AllOf(doc.children, doc.Held())
    }

    ghost predicate Valid()
      reads this, doc, doc.vclock
    {
      doc.Valid() && AllOnLists(Seen(), stack)
    }

    /** The walk starts at the first alive position below the root. */
    constructor (doc: Tree)
      requires doc.Valid()
      ensures Valid() && this.doc == doc && stack == [FirstChild(Seen(), ROOT)]
    {
      var first := doc.NextAlive(ROOT, 0);
      this.doc := doc;
      stack := [first];
    }

    /** One step of the walk, as long as the tree does not change: depth first, children before siblings. */
    method Next() returns (r: Option<string>)
      requires Valid()
      modifies this`stack
      ensures Valid()
      ensures (r, stack) == StepOf(Seen(), old(stack))
    {
      while |stack| > 0
        invariant AllOnLists(Seen(), stack) && StepOf(Seen(), stack) == StepOf(Seen(), old(stack))
        decreases |stack|
      {
        var pos := stack[|stack| - 1];
        assert OnList(Seen(), pos);
        if pos == None {
          stack := stack[..|stack| - 1];
        } else {
          var blk := Advance(pos.value);
          return Some(blk);
        }
      }
      return None;
    }

    /** Descends into the children of the node on top and moves on behind it. */
    method Advance(pos: PosKey) returns (blk: string)
      requires AllOnLists(Seen(), stack) && |stack| > 0 && stack[|stack| - 1] == Some(pos) && OnList(Seen(), Some(pos))
      modifies this`stack
      ensures pos in doc.alive && blk == doc.alive[pos]
      ensures stack == Descended(Seen(), old(stack)[..|old(stack)| - 1], pos)
    {
      var front := stack[..|stack| - 1];
      blk := doc.alive[pos];
      var next := doc.NextAlive(pos.list, LastBehind(doc.children[pos.list], pos.id).value);
      if blk in doc.children {
        var child := doc.NextAlive(blk, 0);
        stack := front + [next] + [child];
      } else {
        stack := front + [next];
      }
    }
  }
}

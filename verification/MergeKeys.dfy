/** Keys of the merge map and the ordered tree they are kept in (backend/crdt2/map.go).
    The tree is a strictly increasing sequence of nodes. */
module MergeKeys {
  import Lex

  type Path = seq<string>

  datatype Stamp = Stamp(time: int, origin: string)

  datatype Key = Key(path: Path, time: int, origin: string)
  {
    function Stamped(): Stamp
    {
      Stamp(time, origin)
    }
  }

  /** Values of patches. Atoms are strings, numbers, booleans and the like. */
  datatype Value = Nil | Atom(text: string) | Array(items: seq<Value>) | Object(fields: map<string, Value>)

  datatype Kind = Primitive | ListChunk | AtomicMap

  datatype Node = Node(key: Key, kind: Kind, value: Value)

  // ---- The order of keys ----

  /** Paths of one length compare element by element. */
  predicate PathLess(a: Path, b: Path)
    requires |a| == |b|
  {
    a != [] && (Lex.Less(a[0], b[0]) || (a[0] == b[0] && PathLess(a[1..], b[1..])))
  }

  predicate StampLess(a: Stamp, b: Stamp)
  {
    a.time < b.time || (a.time == b.time && Lex.Less(a.origin, b.origin))
  }

  /** Shorter paths first, then paths in order, then times, then origins. */
  predicate Less(a: Key, b: Key)
  {
    if |a.path| != |b.path| then |a.path| < |b.path|
    else PathLess(a.path, b.path) || (a.path == b.path && StampLess(a.Stamped(), b.Stamped()))
  }

  method KeyLess(a: Key, b: Key) returns (r: bool)
    ensures r <==> Less(a, b)
  {
    var n, m := |a.path|, |b.path|;
    if n < m {
      return true;
    }
    if n > m {
      return false;
    }
    var i := 0;
    while i < n
      invariant 0 <= i <= n && a.path[..i] == b.path[..i]
      invariant PathLess(a.path, b.path) <==> PathLess(a.path[i..], b.path[i..])
    {
      var x, y := a.path[i], b.path[i];
      Lex.Trichotomy(x, y);
      assert a.path[i..][1..] == a.path[i + 1..] && b.path[i..][1..] == b.path[i + 1..];
      if Lex.Less(x, y) {
        assert a.path != b.path;
        return true;
      }
      if Lex.Less(y, x) {
        assert a.path != b.path;
        return false;
      }
      i := i + 1;
    }
    assert a.path == a.path[..n] == b.path;
    Lex.Irreflexive(a.origin);
    return a.time < b.time || (a.time == b.time && Lex.Less(a.origin, b.origin));
  }

  method SamePath(a: Path, b: Path) returns (r: bool)
    ensures r <==> a == b
  {
    if |a| != |b| {
      return false;
    }
    for i := 0 to |a|
      invariant a[..i] == b[..i]
    {
      if a[i] != b[i] {
        return false;
      }
    }
    assert a == a[..|a|] == b[..|b|] == b;
    return true;
  }

  lemma {:induction false} PathTrichotomy(a: Path, b: Path)
    requires |a| == |b|
    ensures PathLess(a, b) || a == b || PathLess(b, a)
    ensures !(PathLess(a, b) && PathLess(b, a)) && (a == b ==> !PathLess(a, b))
  {
    if a != [] {
      Lex.Trichotomy(a[0], b[0]);
      PathTrichotomy(a[1..], b[1..]);
      assert a == [a[0]] + a[1..] && b == [b[0]] + b[1..];
    }
  }

  lemma {:induction false} PathTransitive(a: Path, b: Path, c: Path)
    requires |a| == |b| == |c| && PathLess(a, b) && PathLess(b, c)
    ensures PathLess(a, c)
  {
    if Lex.Less(a[0], b[0]) && Lex.Less(b[0], c[0]) {
      Lex.Transitive(a[0], b[0], c[0]);
    } else if a[0] == b[0] == c[0] && !Lex.Less(a[0], b[0]) && !Lex.Less(b[0], c[0]) {
      PathTransitive(a[1..], b[1..], c[1..]);
    } else {
      Lex.Irreflexive(a[0]);
      Lex.Irreflexive(b[0]);
    }
  }

  lemma {:induction false} StampTrichotomy(a: Stamp, b: Stamp)
    ensures StampLess(a, b) || a == b || StampLess(b, a)
    ensures !(StampLess(a, b) && StampLess(b, a)) && (a == b ==> !StampLess(a, b))
  {
    Lex.Trichotomy(a.origin, b.origin);
  }

  lemma {:induction false} StampTransitive(a: Stamp, b: Stamp, c: Stamp)
    requires StampLess(a, b) && StampLess(b, c)
    ensures StampLess(a, c)
  {
    if a.time == b.time == c.time {
      Lex.Transitive(a.origin, b.origin, c.origin);
    }
  }

  /** The order of keys is a strict total order. */
  lemma {:induction false} KeyTrichotomy(a: Key, b: Key)
    ensures Less(a, b) || a == b || Less(b, a)
    ensures !(Less(a, b) && Less(b, a)) && (a == b ==> !Less(a, b))
  {
    if |a.path| == |b.path| {
      PathTrichotomy(a.path, b.path);
      StampTrichotomy(a.Stamped(), b.Stamped());
    }
  }

  /** Up to there the two paths are alike, and there the first has the smaller element. */
  predicate SmallerAt(a: Path, b: Path, i: nat)
  {
    i < |a| && i < |b| && a[..i] == b[..i] && Lex.Less(a[i], b[i])
  }

  lemma {:induction false} PathOrder(a: Path, b: Path, i: nat)
    requires |a| == |b| && SmallerAt(a, b, i)
    ensures PathLess(a, b)
  {
    if i > 0 {
      assert a[..i][0] == b[..i][0] && a[..i][1..] == a[1..][..i - 1] && b[..i][1..] == b[1..][..i - 1];
      PathOrder(a[1..], b[1..], i - 1);
    }
  }

  /** The length of the path decides, then the first element that differs, then the time, then the origin. */
  lemma {:induction false} KeyOrder(a: Key, b: Key)
    ensures |a.path| < |b.path| ==> Less(a, b)
    ensures |a.path| == |b.path| && (exists i: nat :: SmallerAt(a.path, b.path, i)) ==> Less(a, b)
    ensures a.path == b.path && a.time < b.time ==> Less(a, b)
    ensures a.path == b.path && a.time == b.time ==> (Less(a, b) <==> Lex.Less(a.origin, b.origin))
  {
    if |a.path| == |b.path| && exists i: nat :: SmallerAt(a.path, b.path, i) {
      var i: nat :| SmallerAt(a.path, b.path, i);
      PathOrder(a.path, b.path, i);
    }
    PathTrichotomy(a.path, a.path);
  }

  lemma {:induction false} KeyTransitive(a: Key, b: Key, c: Key)
    requires Less(a, b) && Less(b, c)
    ensures Less(a, c)
  {
    if |a.path| == |b.path| == |c.path| {
      if PathLess(a.path, b.path) && PathLess(b.path, c.path) {
        PathTransitive(a.path, b.path, c.path);
      } else if a.path == b.path == c.path && !PathLess(a.path, c.path) {
        StampTransitive(a.Stamped(), b.Stamped(), c.Stamped());
      }
    }
  }

  // ---- Sorted nodes ----

  ghost predicate Sorted(nodes: seq<Node>)
  {
    forall i, j :: 0 <= i < j < |nodes| ==> Less(nodes[i].key, nodes[j].key)
  }

  /** Go's `Set` of the tree: in place of the node with the same key, or else where it belongs. */
  function Put(nodes: seq<Node>, n: Node): seq<Node>
  {
    if nodes == [] then [n]
    else if Less(n.key, nodes[0].key) then [n] + nodes
    else if n.key == nodes[0].key then [n] + nodes[1..]
    else [nodes[0]] + Put(nodes[1..], n)
  }

  /** Keys are unique. */
  lemma {:induction false} OneNodePerKey(nodes: seq<Node>, m: Node, n: Node)
    requires Sorted(nodes) && m in nodes && n in nodes && m.key == n.key
    ensures m == n
  {
    var i :| 0 <= i < |nodes| && nodes[i] == m;
    var j :| 0 <= j < |nodes| && nodes[j] == n;
    KeyTrichotomy(m.key, n.key);
  }

  lemma {:induction false} ConsSorted(n: Node, rest: seq<Node>)
    requires Sorted(rest) && forall m :: m in rest ==> Less(n.key, m.key)
    ensures Sorted([n] + rest)
  {
  }

  ghost predicate InPut(nodes: seq<Node>, n: Node, m: Node)
  {
    m == n || (m in nodes && m.key != n.key)
  }

  /** Putting a node replaces the one with its key and keeps all others, in order. */
  lemma {:induction false} PutWorks(nodes: seq<Node>, n: Node)
    requires Sorted(nodes)
    ensures Sorted(Put(nodes, n))
    ensures forall m :: m in Put(nodes, n) <==> InPut(nodes, n, m)
  {
    if nodes != [] {
      var head, rest := nodes[0], nodes[1..];
      assert nodes == [head] + rest;
      KeyTrichotomy(n.key, head.key);
      forall m | m in rest
        ensures Less(head.key, m.key) && m.key != head.key
      {
        KeyTrichotomy(m.key, head.key);
      }
      if Less(n.key, head.key) {
        forall m | m in nodes
          ensures Less(n.key, m.key) && m.key != n.key
        {
          if m != head {
            KeyTransitive(n.key, head.key, m.key);
          }
          KeyTrichotomy(n.key, m.key);
        }
        ConsSorted(n, nodes);
      } else if n.key == head.key {
        ConsSorted(n, rest);
      } else {
        PutWorks(rest, n);
        assert forall m :: m in Put(rest, n) ==> InPut(rest, n, m);
        ConsSorted(head, Put(rest, n));
      }
    }
  }

  /** Sorted sequences of the same nodes are equal. */
  lemma {:induction false} SortedIsUnique(a: seq<Node>, b: seq<Node>)
    requires Sorted(a) && Sorted(b) && forall n :: n in a <==> n in b
    ensures a == b
  {
    assert b != [] ==> b[0] in a;
    if a != [] {
      assert a[0] in b && b[0] in a;
      KeyTrichotomy(a[0].key, b[0].key);
      forall n
        ensures n in a[1..] <==> n in b[1..]
      {
        TailMember(a, n);
        TailMember(b, n);
      }
      SortedIsUnique(a[1..], b[1..]);
      assert a == [a[0]] + a[1..] && b == [b[0]] + b[1..];
    }
  }

  lemma {:induction false} TailMember(nodes: seq<Node>, n: Node)
    requires Sorted(nodes) && nodes != []
    ensures n in nodes[1..] <==> n in nodes && n != nodes[0]
  {
    assert nodes == [nodes[0]] + nodes[1..];
    KeyTrichotomy(nodes[0].key, nodes[0].key);
  }

  /** Go's `Delete` of the tree. */
  function Remove(nodes: seq<Node>, k: Key): seq<Node>
  {
    if nodes == [] then []
    else if nodes[0].key == k then nodes[1..]
    else [nodes[0]] + Remove(nodes[1..], k)
  }

  ghost predicate InRemoved(nodes: seq<Node>, k: Key, m: Node)
  {
    m in nodes && m.key != k
  }

  lemma {:induction false} RemoveWorks(nodes: seq<Node>, k: Key)
    requires Sorted(nodes)
    ensures Sorted(Remove(nodes, k))
    ensures forall m :: m in Remove(nodes, k) <==> InRemoved(nodes, k, m)
  {
    if nodes != [] {
      var head, rest := nodes[0], nodes[1..];
      assert nodes == [head] + rest;
      forall m | m in rest
        ensures Less(head.key, m.key) && m.key != head.key
      {
        KeyTrichotomy(m.key, head.key);
      }
      if head.key != k {
        RemoveWorks(rest, k);
        assert forall m :: m in Remove(rest, k) ==> InRemoved(rest, k, m);
        ConsSorted(head, Remove(rest, k));
      }
    }
  }

  // ---- Scans ----

  predicate AtOrAbove(pivot: Key, k: Key)
  {
    pivot == k || Less(pivot, k)
  }

  /** Where a scan downwards from the pivot starts: behind the last node that is not above it. */
  method Descend(nodes: seq<Node>, pivot: Key) returns (i: nat)
    requires Sorted(nodes)
    ensures i <= |nodes|
    ensures forall j :: 0 <= j < i ==> AtOrAbove(nodes[j].key, pivot)
    ensures forall j :: i <= j < |nodes| ==> Less(pivot, nodes[j].key)
  {
    i := |nodes|;
    while i > 0 && Less(pivot, nodes[i - 1].key)
      invariant i <= |nodes|
      invariant forall j :: i <= j < |nodes| ==> Less(pivot, nodes[j].key)
    {
      i := i - 1;
    }
    forall j | 0 <= j < i
      ensures AtOrAbove(nodes[j].key, pivot)
    {
      KeyTrichotomy(pivot, nodes[i - 1].key);
      if j < i - 1 && nodes[i - 1].key != pivot {
        KeyTransitive(nodes[j].key, nodes[i - 1].key, pivot);
      }
    }
  }

  /** Where a scan upwards from the pivot starts: at the first node that is not below it. */
  method Ascend(nodes: seq<Node>, pivot: Key) returns (i: nat)
    requires Sorted(nodes)
    ensures i <= |nodes|
    ensures forall j :: 0 <= j < i ==> Less(nodes[j].key, pivot)
    ensures forall j :: i <= j < |nodes| ==> AtOrAbove(pivot, nodes[j].key)
  {
    i := 0;
    while i < |nodes| && Less(nodes[i].key, pivot)
      invariant i <= |nodes|
      invariant forall j :: 0 <= j < i ==> Less(nodes[j].key, pivot)
    {
      i := i + 1;
    }
    forall j | i <= j < |nodes|
      ensures AtOrAbove(pivot, nodes[j].key)
    {
      KeyTrichotomy(pivot, nodes[i].key);
      if j > i && nodes[i].key != pivot {
        KeyTransitive(pivot, nodes[i].key, nodes[j].key);
      }
    }
  }

  /** Keys between two with the same path have it too. */
  lemma {:induction false} SamePathBetween(a: Key, b: Key, c: Key)
    requires AtOrAbove(a, b) && AtOrAbove(b, c) && a.path == c.path
    ensures b.path == a.path
  {
    if |a.path| == |b.path| {
      PathTrichotomy(a.path, b.path);
    }
  }

  ghost predicate ChildPath(parent: Path, p: Path)
  {
    |p| == |parent| + 1 && p[..|parent|] == parent
  }

  lemma {:induction false} SiblingsBetween(parent: Path, a: Path, b: Path, c: Path)
    requires ChildPath(parent, a) && ChildPath(parent, c) && |b| == |a|
    requires (a == b || PathLess(a, b)) && (b == c || PathLess(b, c))
    ensures ChildPath(parent, b)
  {
    if parent != [] {
      Lex.Trichotomy(a[0], b[0]);
      assert a[0] == c[0] == parent[0];
      assert a[1..][..|parent| - 1] == parent[1..] && c[1..][..|parent| - 1] == parent[1..];
      SiblingsBetween(parent[1..], a[1..], b[1..], c[1..]);
      assert b[..|parent|] == [b[0]] + b[1..][..|parent| - 1];
    }
  }

  /** Keys between two children of a path are of children of it. */
  lemma {:induction false} ChildrenBetween(parent: Path, a: Key, b: Key, c: Key)
    requires ChildPath(parent, a.path) && ChildPath(parent, c.path) && AtOrAbove(a, b) && AtOrAbove(b, c)
    ensures ChildPath(parent, b.path)
  {
    SiblingsBetween(parent, a.path, b.path, c.path);
  }
}

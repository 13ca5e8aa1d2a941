/** The last-writer-wins map of entities (backend/crdt2/map.go). */
module MergeMap {
  import Lex
  import opened Int64
  import opened MergeKeys
  import opened Options

  type Fields = map<string, Value>

  // ---- What a patch says ----

  predicate Tagged(v: Value, tag: string)
  {
    v.Object? && tag in v.fields && |v.fields| == 1
  }

  /** A map that is no special one: its own entries are patched too. */
  predicate Nested(v: Value)
  {
    v.Object? && !Tagged(v, "#list") && !Tagged(v, "#map") && !Tagged(v, "#rga")
  }

  function Unwrap(v: Value): (Kind, Value)
  {
    if Tagged(v, "#list") then (ListChunk, v.fields["#list"])
    else if Tagged(v, "#map") then (AtomicMap, v.fields["#map"])
    else (Primitive, v)
  }

  /** What a value of a patch is stored as: of `{"#list": x}` and `{"#map": x}` the `x`, and all else as it is. */
  ghost predicate StoredAs(v: Value, kind: Kind, stored: Value)
  {
    match kind
    case ListChunk => v == Object(map["#list" := stored])
    case AtomicMap => v == Object(map["#map" := stored])
    case Primitive => v == stored && forall x :: v != Object(map["#list" := x]) && v != Object(map["#map" := x])
  }

  lemma {:induction false} TaggedIs(v: Value, tag: string)
    requires Tagged(v, tag)
    ensures v == Object(map[tag := v.fields[tag]])
  {
    assert |v.fields.Keys - {tag}| == 0;
    assert v.fields.Keys == {tag};
    assert v.fields == map[tag := v.fields[tag]];
  }

  lemma {:induction false} UnwrapStores(v: Value)
    ensures StoredAs(v, Unwrap(v).0, Unwrap(v).1)
  {
    forall x, tag | v == Object(map[tag := x])
      ensures Tagged(v, tag)
    {
      assert v.fields.Keys == {tag};
    }
    if Tagged(v, "#list") {
      TaggedIs(v, "#list");
    } else if Tagged(v, "#map") {
      TaggedIs(v, "#map");
    }
  }

  /** The value found by following a path through nested maps. */
  function Reach(patch: Fields, path: Path): Option<Value>
    decreases |path|
  {
    if path == [] || path[0] !in patch then None
    else if |path| == 1 then Some(patch[path[0]])
    else if Nested(patch[path[0]]) then Reach(patch[path[0]].fields, path[1..])
    else None
  }

  /** A map that is patched entry by entry: neither of the special ones. */
  ghost predicate IsPlainMap(v: Value)
  {
    v.Object? && forall tag, x :: tag == "#list" || tag == "#map" || tag == "#rga" ==> v != Object(map[tag := x])
  }

  lemma {:induction false} PlainIsNested(v: Value)
    ensures Nested(v) <==> IsPlainMap(v)
  {
    forall x, tag | v == Object(map[tag := x])
      ensures Tagged(v, tag)
    {
      assert v.fields.Keys == {tag};
    }
    forall tag | Tagged(v, tag)
      ensures v == Object(map[tag := v.fields[tag]])
    {
      TaggedIs(v, tag);
    }
  }

  /** A path leads to an entry of the patch, or on from a plain map to an entry of it, however many it has. */
  lemma {:induction false} LeadsToEntries(patch: Fields, path: Path, k: string)
    ensures Reach(patch, [k]) == if k in patch then Some(patch[k]) else None
    ensures path != [] ==>
      Reach(patch, path + [k]) ==
      match Reach(patch, path)
      case None => None
      case Some(v) => if IsPlainMap(v) && k in v.fields then Some(v.fields[k]) else None
    decreases |path|
  {
    if path != [] && path[0] in patch {
      PlainIsNested(patch[path[0]]);
      assert (path + [k])[1..] == path[1..] + [k];
      if |path| == 1 {
        assert path[1..] + [k] == [k];
      } else if Nested(patch[path[0]]) {
        LeadsToEntries(patch[path[0]].fields, path[1..], k);
      }
    }
  }

  datatype Patch = Patch(stamp: Stamp, fields: Fields)

  function NodeFor(stamp: Stamp, path: Path, v: Value): Node
  {
    Node(Key(path, stamp.time, stamp.origin), Unwrap(v).0, Unwrap(v).1)
  }

  /** The patch has a value for this node: the one its path leads to. */
  ghost predicate Writes(p: Patch, n: Node)
  {
    var r := Reach(p.fields, n.key.path);
    r.Some? && n == NodeFor(p.stamp, n.key.path, r.value)
  }

  ghost predicate WritesKey(p: Patch, k: Key)
  {
    k.Stamped() == p.stamp && Reach(p.fields, k.path).Some?
  }

  /** The nodes after a patch: its own, and the others with keys it does not write. */
  ghost function Overlay(nodes: iset<Node>, p: Patch): iset<Node>
  {
    iset n | Writes(p, n) || (n in nodes && !WritesKey(p, n.key))
  }

  /** The source panics on chunks of replicated arrays, which are not implemented. */
  ghost predicate NoRga(patch: Fields)
  {
    forall path :: Reach(patch, path).Some? ==> !Tagged(Reach(patch, path).value, "#rga")
  }

  // ---- Termination of the walk: how many entries a value has in all ----

  ghost function Entries(v: Value): nat
    decreases v, 1
  {
    if v.Object? then EntriesOf(v, v.fields.Keys) else 0
  }

  ghost function EntriesOf(v: Value, keys: set<string>): nat
    requires v.Object? && keys <= v.fields.Keys
    decreases v, 0, |keys|
  {
    if keys == {} then 0
    else
      var k :| k in keys;
      1 + Entries(v.fields[k]) + EntriesOf(v, keys - {k})
  }

  lemma {:induction false} TakeEntry(v: Value, keys: set<string>, k: string)
    requires v.Object? && k in keys && keys <= v.fields.Keys
    ensures EntriesOf(v, keys) == 1 + Entries(v.fields[k]) + EntriesOf(v, keys - {k})
    decreases |keys|
  {
    var first :| first in keys && EntriesOf(v, keys) == 1 + Entries(v.fields[first]) + EntriesOf(v, keys - {first});
    if first != k {
      TakeEntry(v, keys - {first}, k);
      TakeEntry(v, keys - {k}, first);
      assert keys - {first} - {k} == keys - {k} - {first};
    }
  }

  // ---- The queue of the walk ----

  datatype Item = Item(fields: Fields, path: Path)

  ghost function Work(queue: seq<Item>): nat
  {
    if queue == [] then 0 else 1 + Entries(Object(queue[0].fields)) + Work(queue[1..])
  }

  lemma {:induction false} WorkOfAppended(queue: seq<Item>, it: Item)
    ensures Work(queue + [it]) == Work(queue) + 1 + Entries(Object(it.fields))
  {
    if queue == [] {
      assert queue + [it] == [it] && [it][1..] == [];
    } else {
      assert (queue + [it])[1..] == queue[1..] + [it];
      WorkOfAppended(queue[1..], it);
    }
  }

  /** A map of the patch that is patched entry by entry, and where it is. */
  ghost predicate PartOf(patch: Fields, it: Item)
  {
    if it.path == [] then it.fields == patch
    else
      && Reach(patch, it.path).Some? && Nested(Reach(patch, it.path).value)
      && Reach(patch, it.path).value.fields == it.fields
  }

  /** What a map of the patch leads to, the patch leads to. */
  lemma {:induction false} ReachThrough(patch: Fields, it: Item, rest: Path)
    requires PartOf(patch, it) && rest != []
    ensures Reach(patch, it.path + rest) == Reach(it.fields, rest)
    decreases |it.path|
  {
    if it.path == [] {
      assert it.path + rest == rest;
    } else {
      var k := it.path[0];
      assert (it.path + rest)[1..] == it.path[1..] + rest;
      if |it.path| == 1 {
        assert it.path[1..] + rest == rest;
      } else {
        ReachThrough(patch[k].fields, Item(it.fields, it.path[1..]), rest);
      }
    }
  }

  ghost predicate Behind(it: Item, path: Path)
  {
    it.path <= path && |it.path| < |path|
  }

  /** An item still in the queue leads to the path. */
  ghost predicate Pending(queue: seq<Item>, path: Path)
  {
    exists it :: it in queue && Behind(it, path)
  }

  // ---- Reading ----

  function NewPivot(path: Path, reverse: bool): Key
  {
    Key(path, if reverse then MAX_INT64 else 0, "")
  }

  /** The entry at the path that no other one at the path comes after, up to the pivot. */
  ghost predicate IsLatest(nodes: seq<Node>, path: Path, n: Node)
  {
    && n in nodes && n.key.path == path && AtOrAbove(n.key, NewPivot(path, true))
    && forall m :: m in nodes && m.key.path == path && AtOrAbove(m.key, NewPivot(path, true)) ==>
        m == n || StampLess(m.key.Stamped(), n.key.Stamped())
  }

  ghost predicate NothingAt(nodes: seq<Node>, path: Path)
  {
    forall m :: m in nodes && m.key.path == path ==> !AtOrAbove(m.key, NewPivot(path, true))
  }

  /** What reading a path gives: the value of the latest entry, nothing for a list chunk, and nil for the empty
      path where nothing is. */
  ghost predicate IsReading(nodes: seq<Node>, path: Path, r: Option<Value>)
  {
    && (forall n :: IsLatest(nodes, path, n) ==> r == if n.kind == ListChunk then None else Some(n.value))
    && (NothingAt(nodes, path) ==> r == if path == [] then Some(Nil) else None)
    && (NothingAt(nodes, path) || exists n :: IsLatest(nodes, path, n))
  }

  /** There is an entry with the key for the value. */
  ghost predicate Holds(nodes: seq<Node>, k: Key, v: Value)
  {
    exists n :: n in nodes && n.key == k && StoredAs(v, n.kind, n.value)
  }

  /** Wherever the patch leads there is an entry for the value it leads to. */
  ghost predicate HoldsPatch(nodes: seq<Node>, p: Patch)
  {
    forall path :: Reach(p.fields, path).Some? ==>
      Holds(nodes, Key(path, p.stamp.time, p.stamp.origin), Reach(p.fields, path).value)
  }

  lemma {:induction false} OverlayHolds(nodes: seq<Node>, before: iset<Node>, p: Patch)
    requires (iset n | n in nodes) == Overlay(before, p)
    ensures HoldsPatch(nodes, p)
  {
    forall path | Reach(p.fields, path).Some?
      ensures Holds(nodes, Key(path, p.stamp.time, p.stamp.origin), Reach(p.fields, path).value)
    {
      var n := NodeFor(p.stamp, path, Reach(p.fields, path).value);
      assert Writes(p, n) && n in Overlay(before, p);
      UnwrapStores(Reach(p.fields, path).value);
    }
  }

  /** The entries at a path, from the pivot on, in order. */
  function EntriesAt(nodes: seq<Node>, path: Path): seq<Node>
  {
    if nodes == [] then []
    else
      (if nodes[0].key.path == path && AtOrAbove(NewPivot(path, false), nodes[0].key) then [nodes[0]] else [])
      + EntriesAt(nodes[1..], path)
  }

  /** What reading a list gives; the source panics on chunks that insert nothing. */
  datatype Listing = Listed(out: seq<Value>, ok: bool) | Panics

  predicate IsInsert(v: Value)
  {
    v.Object? && "#ins" in v.fields && v.fields["#ins"].Array?
  }

  /** The items of the chunks up to the first entry that is none. */
  function Chunks(entries: seq<Node>): Listing
  {
    if entries == [] || entries[0].kind != ListChunk then Listed([], false)
    else if !IsInsert(entries[0].value) then Panics
    else Prepend(entries[0].value.fields["#ins"].items, Chunks(entries[1..]))
  }

  function Prepend(items: seq<Value>, rest: Listing): Listing
  {
    if rest.Panics? then Panics else Listed(items + rest.out, true)
  }

  /** Names of the direct children, as far as the scan sees them. */
  ghost predicate SeenChild(path: Path, k: Key)
  {
    ChildPath(path, k.path) && AtOrAbove(NewPivot(path + [""], false), k)
  }

  ghost predicate IsChild(nodes: seq<Node>, path: Path, name: string)
  {
    exists n :: n in nodes && SeenChild(path, n.key) && n.key.path == path + [name]
  }

  predicate Ascending(list: seq<string>)
  {
    forall i, j :: 0 <= i < j < |list| ==> Lex.Less(list[i], list[j])
  }

  class Map {
    var nodes: seq<Node>

    ghost predicate Valid()
      reads this
    {
      Sorted(nodes)
    }

    ghost function Contents(): iset<Node>
      reads this
    {
      iset n | n in nodes
    }

    constructor ()
      ensures Valid() && nodes == []
    {
      nodes := [];
    }

    method SetNode(stamp: Stamp, path: Path, kind: Kind, value: Value)
      requires Valid()
      modifies this
      ensures Valid()
      ensures forall m :: m in nodes <==> InPut(old(nodes), Node(Key(path, stamp.time, stamp.origin), kind, value), m)
    {
      var n := Node(Key(path, stamp.time, stamp.origin), kind, value);
      PutWorks(nodes, n);
      nodes := Put(nodes, n);
    }

    method Set(stamp: Stamp, path: Path, value: Value)
      requires Valid()
      modifies this
      ensures Valid()
      ensures forall m :: m in nodes <==> InPut(old(nodes), Node(Key(path, stamp.time, stamp.origin), Primitive, value), m)
    {
      SetNode(stamp, path, Primitive, value);
    }

    method ApplyPatch(stamp: Stamp, patch: Option<Fields>) returns (ok: bool)
      requires Valid() && (patch.Some? ==> NoRga(patch.value))
      modifies this
      ensures Valid() && ok == patch.Some?
      ensures Contents() ==
              if patch.Some? then Overlay(old(Contents()), Patch(stamp, patch.value)) else old(Contents())
      ensures patch.Some? ==> HoldsPatch(nodes, Patch(stamp, patch.value))
    {
      if patch == None {
        return false;
      }
      ghost var before, p := nodes, Patch(stamp, patch.value);
      var queue := [Item(patch.value, [])];
      StartsPatching(before, p, queue[0]);
      while queue != []
        invariant Patching(nodes, before, p, queue, Item(map[], []), {})
        decreases Work(queue)
      {
        var cur := queue[0];
        var todo := cur.fields.Keys;
        ghost var work := Work(queue);
        TakesItem(nodes, before, p, queue);
        queue := queue[1..];
        while todo != {}
          invariant todo <= cur.fields.Keys && PartOf(p.fields, cur)
          invariant Patching(nodes, before, p, queue, cur, todo)
          invariant Work(queue) + EntriesOf(Object(cur.fields), todo) < work
          decreases |todo|
        {
          var k :| k in todo;
          var v := cur.fields[k];
          ghost var was, ahead := nodes, queue;
          ReachThrough(p.fields, cur, [k]);
          TakeEntry(Object(cur.fields), todo, k);
          var kind, value := Primitive, v;
          if v.Object? {
            if "#list" in v.fields && |v.fields| == 1 {
              value, kind := v.fields["#list"], ListChunk;
            } else if "#map" in v.fields && |v.fields| == 1 {
              value, kind := v.fields["#map"], AtomicMap;
            } else {
              WorkOfAppended(queue, Item(v.fields, cur.path + [k]));
              queue := queue + [Item(v.fields, cur.path + [k])];
            }
          }
          SetNode(stamp, cur.path + [k], kind, value);
          VisitKeeps(was, nodes, before, p, ahead, cur, todo, k);
          todo := todo - {k};
        }
      }
      PatchingIsOverlay(nodes, before, p);
      OverlayHolds(nodes, old(Contents()), p);
      return true;
    }

    method Get(path: Path) returns (r: Option<Value>)
      requires Valid()
      ensures IsReading(nodes, path, r)
    {
      var pivot := NewPivot(path, true);
      var n := Node(Key([], 0, ""), Primitive, Nil);
      var i := Descend(nodes, pivot);
      if i > 0 {
        n := nodes[i - 1];
      }
      LastIsLatest(nodes, path, i);
      var same := SamePath(path, n.key.path);
      if !same {
        return None;
      }
      if n.kind != Primitive && n.kind != AtomicMap {
        return None;
      }
      return Some(n.value);
    }

    method List(path: Path) returns (r: Listing)
      requires Valid()
      ensures r == Chunks(EntriesAt(nodes, path))
    {
      var out, ok := [], false;
      var i := Ascend(nodes, NewPivot(path, false));
      EntriesFromPivot(nodes, path, i);
      while i < |nodes|
        invariant 0 <= i <= |nodes|
        invariant forall j :: i <= j < |nodes| ==> AtOrAbove(NewPivot(path, false), nodes[j].key)
        invariant Chunks(EntriesAt(nodes, path)) ==
                  if ok then Prepend(out, Chunks(EntriesAt(nodes[i..], path))) else Chunks(EntriesAt(nodes[i..], path))
        invariant !ok ==> out == []
      {
        if nodes[i].kind != ListChunk {
          StopsAt(nodes, path, i);
          break;
        }
        var same := SamePath(path, nodes[i].key.path);
        if !same {
          StopsAt(nodes, path, i);
          break;
        }
        if !IsInsert(nodes[i].value) {
          return Panics;
        }
        PrependTwice(out, nodes[i].value.fields["#ins"].items, Chunks(EntriesAt(nodes[i + 1..], path)));
        out := out + nodes[i].value.fields["#ins"].items;
        ok := true;
        i := i + 1;
      }
      return Listed(out, ok);
    }

    method Keys(path: Path) returns (list: seq<string>)
      requires Valid()
      ensures Ascending(list) && forall name :: name in list <==> IsChild(nodes, path, name)
    {
      var pivot := NewPivot(path + [""], false);
      var keys: set<string> := {};
      var i := Ascend(nodes, pivot);
      ghost var first := i;
      while i < |nodes|
        invariant first <= i <= |nodes|
        invariant forall j :: first <= j < i ==> SeenChild(path, nodes[j].key)
        invariant forall name :: name in keys <==> exists j :: first <= j < i && nodes[j].key.path == path + [name]
      {
        var p := nodes[i].key.path;
        assert AtOrAbove(pivot, nodes[i].key);
        var same := SamePath(path, p[..|p| - 1]);
        if !same {
          break;
        }
        assert p == path + [p[|p| - 1]];
        keys := keys + {p[|p| - 1]};
        i := i + 1;
      }
      ScannedChildren(nodes, path, first, i, keys);
      list := SortedStrings(keys);
    }

    method ForgetState(stamp: Stamp)
      requires Valid()
      modifies this
      ensures Valid() && Contents() == Without(old(Contents()), stamp)
    {
      ghost var before := nodes;
      var toDelete: seq<Node> := [];
      for i := 0 to |nodes|
        invariant Sorted(toDelete) && forall n :: n in toDelete <==> n in before[..i] && n.key.Stamped() == stamp
      {
        assert before[..i + 1] == before[..i] + [before[i]];
        if nodes[i].key.time == stamp.time && nodes[i].key.origin == stamp.origin {
          toDelete := toDelete + [nodes[i]];
        }
      }
      assert before[..|before|] == before;
      for i := 0 to |toDelete|
        invariant Valid()
        invariant forall n :: n in nodes <==> n in before && n !in toDelete[..i]
      {
        var n := toDelete[i];
        DeletesNext(before, nodes, toDelete, i);
        RemoveWorks(nodes, n.key);
        nodes := Remove(nodes, n.key);
      }
      assert toDelete[..|toDelete|] == toDelete;
    }
  }

  /** The nodes of other stamps. */
  ghost function Without(nodes: iset<Node>, stamp: Stamp): iset<Node>
  {
    iset n | n in nodes && n.key.Stamped() != stamp
  }

  /** The next node to delete is still there, so deleting never fails. */
  lemma {:induction false} DeletesNext(before: seq<Node>, nodes: seq<Node>, toDelete: seq<Node>, i: nat)
    requires Sorted(before) && Sorted(toDelete) && i < |toDelete|
    requires forall n :: n in toDelete ==> n in before
    requires forall n :: n in nodes <==> n in before && n !in toDelete[..i]
    ensures toDelete[i] in nodes
    ensures forall n :: InRemoved(nodes, toDelete[i].key, n) <==> n in before && n !in toDelete[..i + 1]
  {
    assert toDelete[..i + 1] == toDelete[..i] + [toDelete[i]];
    if toDelete[i] in toDelete[..i] {
      var j :| 0 <= j < i && toDelete[j] == toDelete[i];
      KeyTrichotomy(toDelete[j].key, toDelete[i].key);
    }
    forall n | n in before && n.key == toDelete[i].key
      ensures n == toDelete[i]
    {
      OneNodePerKey(before, n, toDelete[i]);
    }
  }

  // ---- Scans find what is there ----

  lemma {:induction false} LastIsLatest(nodes: seq<Node>, path: Path, i: nat)
    requires Sorted(nodes) && i <= |nodes|
    requires forall j :: 0 <= j < i ==> AtOrAbove(nodes[j].key, NewPivot(path, true))
    requires forall j :: i <= j < |nodes| ==> Less(NewPivot(path, true), nodes[j].key)
    ensures i > 0 && nodes[i - 1].key.path == path ==>
              IsLatest(nodes, path, nodes[i - 1]) && forall n :: IsLatest(nodes, path, n) ==> n == nodes[i - 1]
    ensures i == 0 || nodes[i - 1].key.path != path ==> NothingAt(nodes, path)
    ensures i > 0 && path == [] ==> nodes[i - 1].key.path == path
  {
    var pivot := NewPivot(path, true);
    forall m | m in nodes && m.key.path == path && AtOrAbove(m.key, pivot)
      ensures i > 0 && nodes[i - 1].key.path == path
      ensures m == nodes[i - 1] || StampLess(m.key.Stamped(), nodes[i - 1].key.Stamped())
    {
      var j :| 0 <= j < |nodes| && nodes[j] == m;
      KeyTrichotomy(m.key, pivot);
      if j < i - 1 {
        SamePathBetween(m.key, nodes[i - 1].key, pivot);
        PathTrichotomy(path, path);
      }
    }
    if i > 0 && nodes[i - 1].key.path == path {
      forall n | IsLatest(nodes, path, n)
        ensures n == nodes[i - 1]
      {
        StampTrichotomy(n.key.Stamped(), nodes[i - 1].key.Stamped());
      }
    }
  }

  lemma {:induction false} EntriesFromPivot(nodes: seq<Node>, path: Path, i: nat)
    requires i <= |nodes| && forall j :: 0 <= j < i ==> Less(nodes[j].key, NewPivot(path, false))
    ensures EntriesAt(nodes, path) == EntriesAt(nodes[i..], path)
  {
    if i > 0 {
      KeyTrichotomy(nodes[0].key, NewPivot(path, false));
      EntriesFromPivot(nodes[1..], path, i - 1);
      assert nodes[1..][i - 1..] == nodes[i..];
    }
  }

  lemma {:induction false} NoEntriesBehind(nodes: seq<Node>, path: Path, k: Key)
    requires k.path != path && AtOrAbove(NewPivot(path, false), k)
    requires forall n :: n in nodes ==> Less(k, n.key)
    ensures EntriesAt(nodes, path) == []
  {
    if nodes != [] {
      NoEntriesBehind(nodes[1..], path, k);
      if nodes[0].key.path == path {
        SamePathBetween(NewPivot(path, false), k, nodes[0].key);
      }
    }
  }

  lemma {:induction false} StopsAt(nodes: seq<Node>, path: Path, i: nat)
    requires Sorted(nodes) && i < |nodes| && AtOrAbove(NewPivot(path, false), nodes[i].key)
    requires nodes[i].kind != ListChunk || nodes[i].key.path != path
    ensures Chunks(EntriesAt(nodes[i..], path)) == Listed([], false)
  {
    if nodes[i].key.path != path {
      assert nodes[i..][1..] == nodes[i + 1..];
      NoEntriesBehind(nodes[i + 1..], path, nodes[i].key);
    }
  }

  lemma {:induction false} PrependTwice(a: seq<Value>, b: seq<Value>, rest: Listing)
    ensures Prepend(a, Prepend(b, rest)) == Prepend(a + b, rest)
    ensures a == [] ==> Prepend(b, rest) == Prepend(a + b, rest)
  {
    if rest.Listed? {
      assert a + (b + rest.out) == a + b + rest.out;
    }
    assert a == [] ==> a + b == b;
  }

  lemma {:induction false} ScannedChildren(nodes: seq<Node>, path: Path, first: nat, i: nat, keys: set<string>)
    requires Sorted(nodes) && first <= i <= |nodes|
    requires forall j :: 0 <= j < first ==> Less(nodes[j].key, NewPivot(path + [""], false))
    requires forall j :: first <= j < |nodes| ==> AtOrAbove(NewPivot(path + [""], false), nodes[j].key)
    requires forall j :: first <= j < i ==> SeenChild(path, nodes[j].key)
    requires i < |nodes| ==> !ChildPath(path, nodes[i].key.path)
    requires forall name :: name in keys <==> exists j :: first <= j < i && nodes[j].key.path == path + [name]
    ensures forall name :: name in keys <==> IsChild(nodes, path, name)
  {
    var pivot := NewPivot(path + [""], false);
    forall name | IsChild(nodes, path, name)
      ensures name in keys
    {
      var n :| n in nodes && SeenChild(path, n.key) && n.key.path == path + [name];
      var j :| 0 <= j < |nodes| && nodes[j] == n;
      KeyTrichotomy(n.key, pivot);
      if j >= i {
        assert ChildPath(path, pivot.path);
        ChildrenBetween(path, pivot, nodes[i].key, nodes[j].key);
      }
    }
  }

  method SortedStrings(keys: set<string>) returns (list: seq<string>)
    ensures Ascending(list) && forall s :: s in list <==> s in keys
  {
    list := [];
    var rest := keys;
    while rest != {}
      invariant rest <= keys && Ascending(list) && forall s :: s in list <==> s in keys - rest
    {
      var s :| s in rest;
      var i := 0;
      while i < |list| && Lex.Less(list[i], s)
        invariant 0 <= i <= |list| && forall j :: 0 <= j < i ==> Lex.Less(list[j], s)
      {
        i := i + 1;
      }
      InsertString(list, s, i);
      list := list[..i] + [s] + list[i..];
      rest := rest - {s};
    }
  }

  lemma {:induction false} InsertString(list: seq<string>, s: string, i: nat)
    requires Ascending(list) && i <= |list| && s !in list
    requires forall j :: 0 <= j < i ==> Lex.Less(list[j], s)
    requires i < |list| ==> !Lex.Less(list[i], s)
    ensures Ascending(list[..i] + [s] + list[i..])
    ensures forall t :: t in list[..i] + [s] + list[i..] <==> t == s || t in list
  {
    forall j | i <= j < |list|
      ensures Lex.Less(s, list[j])
    {
      Lex.Trichotomy(list[i], s);
      if j > i {
        Lex.Transitive(s, list[i], list[j]);
      }
    }
    assert list == list[..i] + list[i..];
  }

  // ---- What holds while patching ----

  ghost predicate StillToCome(queue: seq<Item>, cur: Item, todo: set<string>, path: Path)
  {
    Pending(queue, path) || (Behind(cur, path) && path[|cur.path|] in todo)
  }

  /** Everything in the tree is from before or from the patch, nothing the patch leaves alone is
      lost, and what the patch writes is there already or still to come. */
  ghost predicate Patching(nodes: seq<Node>, before: seq<Node>, p: Patch, queue: seq<Item>, cur: Item, todo: set<string>)
  {
    && Sorted(nodes)
    && (forall n :: n in nodes ==> Writes(p, n) || n in before)
    && (forall n :: n in before && !WritesKey(p, n.key) ==> n in nodes)
    && (forall n :: Writes(p, n) ==> n in nodes || StillToCome(queue, cur, todo, n.key.path))
    && (forall it :: it in queue ==> PartOf(p.fields, it))
  }

  lemma {:induction false} StartsPatching(nodes: seq<Node>, p: Patch, it: Item)
    requires Sorted(nodes) && it == Item(p.fields, [])
    ensures Patching(nodes, nodes, p, [it], Item(map[], []), {})
  {
    forall n | Writes(p, n)
      ensures StillToCome([it], Item(map[], []), {}, n.key.path)
    {
      assert it in [it] && Behind(it, n.key.path);
    }
  }

  lemma {:induction false} TakesItem(nodes: seq<Node>, before: seq<Node>, p: Patch, queue: seq<Item>)
    requires queue != [] && Patching(nodes, before, p, queue, Item(map[], []), {})
    ensures Patching(nodes, before, p, queue[1..], queue[0], queue[0].fields.Keys) && PartOf(p.fields, queue[0])
  {
    var cur := queue[0];
    forall n | Writes(p, n) && n !in nodes
      ensures StillToCome(queue[1..], cur, cur.fields.Keys, n.key.path)
    {
      var path := n.key.path;
      assert StillToCome(queue, Item(map[], []), {}, path);
      var it :| it in queue && Behind(it, path);
      if it == cur {
        ReachThrough(p.fields, cur, path[|cur.path|..]);
        assert path == cur.path + path[|cur.path|..];
      } else {
        assert it in queue[1..];
      }
    }
  }

  function Enqueued(queue: seq<Item>, path: Path, v: Value): seq<Item>
  {
    if Nested(v) then queue + [Item(v.fields, path)] else queue
  }

  lemma {:induction false} VisitKeeps(nodes: seq<Node>, nodes': seq<Node>, before: seq<Node>, p: Patch,
                                      queue: seq<Item>, cur: Item, todo: set<string>, k: string)
    requires Patching(nodes, before, p, queue, cur, todo) && PartOf(p.fields, cur)
    requires k in todo && todo <= cur.fields.Keys
    requires Sorted(nodes')
    requires forall m :: m in nodes' <==> InPut(nodes, NodeFor(p.stamp, cur.path + [k], cur.fields[k]), m)
    ensures Patching(nodes', before, p, Enqueued(queue, cur.path + [k], cur.fields[k]), cur, todo - {k})
  {
    var v := cur.fields[k];
    var path := cur.path + [k];
    var put, queue' := NodeFor(p.stamp, path, v), Enqueued(queue, path, v);
    ReachThrough(p.fields, cur, [k]);
    forall n | Writes(p, n)
      ensures n in nodes' || StillToCome(queue', cur, todo - {k}, n.key.path)
    {
      if n !in nodes {
        NextVisit(p, queue, cur, todo, k, n);
      } else {
        assert InPut(nodes, put, n) || n.key == put.key;
      }
    }
    forall n | n in nodes'
      ensures Writes(p, n) || n in before
    {
      assert InPut(nodes, put, n);
    }
    forall n | n in before && !WritesKey(p, n.key)
      ensures n in nodes'
    {
      assert n in nodes && InPut(nodes, put, n);
    }
  }

  /** A node still to come is the one being set, or it stays to come. */
  lemma {:induction false} NextVisit(p: Patch, queue: seq<Item>, cur: Item, todo: set<string>, k: string, n: Node)
    requires PartOf(p.fields, cur) && k in todo && todo <= cur.fields.Keys
    requires Writes(p, n) && StillToCome(queue, cur, todo, n.key.path)
    ensures
      || n == NodeFor(p.stamp, cur.path + [k], cur.fields[k])
      || StillToCome(Enqueued(queue, cur.path + [k], cur.fields[k]), cur, todo - {k}, n.key.path)
  {
    var path, v := n.key.path, cur.fields[k];
    var queue' := Enqueued(queue, cur.path + [k], v);
    if Pending(queue, path) {
      var it :| it in queue && Behind(it, path);
      assert it in queue';
    } else if path[|cur.path|] == k {
      var rest := path[|cur.path|..];
      assert path == cur.path + rest;
      ReachThrough(p.fields, cur, rest);
      if |rest| == 1 {
        assert rest == [k];
      } else {
        var it := Item(v.fields, cur.path + [k]);
        assert it in queue' && Behind(it, path);
      }
    }
  }

  lemma {:induction false} PatchingIsOverlay(nodes: seq<Node>, before: seq<Node>, p: Patch)
    requires Patching(nodes, before, p, [], Item(map[], []), {})
    ensures (iset n | n in nodes) == Overlay((iset n | n in before), p)
  {
    forall n
      ensures n in nodes <==> Writes(p, n) || (n in before && !WritesKey(p, n.key))
    {
      assert Writes(p, n) ==> n in nodes || StillToCome([], Item(map[], []), {}, n.key.path);
      if n in nodes && WritesKey(p, n.key) {
        var w := NodeFor(p.stamp, n.key.path, Reach(p.fields, n.key.path).value);
        assert Writes(p, w) && !StillToCome([], Item(map[], []), {}, w.key.path);
        OneNodePerKey(nodes, w, n);
      }
    }
  }
}

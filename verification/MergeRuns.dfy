/** Whole histories of the merge map: convergence, last writer wins, forgetting, and what the
    scans amount to (backend/crdt2/map.go). */
module MergeRuns {
  import Lex
  import opened Int64
  import opened MergeKeys
  import opened MergeMap
  import opened Options

  /** The nodes after applying patches in order. */
  ghost function RunOf(ps: seq<Patch>): iset<Node>
  {
    if ps == [] then iset{} else Overlay(RunOf(ps[..|ps| - 1]), ps[|ps| - 1])
  }

  ghost predicate OneStampOnePatch(ps: seq<Patch>)
  {
    forall p, q :: p in ps && q in ps && p.stamp == q.stamp ==> p == q
  }

  ghost predicate Written(ps: seq<Patch>, n: Node)
  {
    exists p :: p in ps && Writes(p, n)
  }

  lemma {:induction false} SplitLast(ps: seq<Patch>)
    requires ps != []
    ensures ps == ps[..|ps| - 1] + [ps[|ps| - 1]]
  {
  }

  /** A history of patches with distinct stamps leaves what its patches write, and nothing else. */
  lemma {:induction false} RunIsWhatIsWritten(ps: seq<Patch>)
    requires OneStampOnePatch(ps)
    ensures forall n :: n in RunOf(ps) <==> Written(ps, n)
  {
    if ps != [] {
      var init, last := ps[..|ps| - 1], ps[|ps| - 1];
      SplitLast(ps);
      RunIsWhatIsWritten(init);
      forall n
        ensures n in RunOf(ps) <==> Written(ps, n)
      {
        assert Written(init, n) ==> n in RunOf(init);
        if Written(ps, n) {
          var p :| p in ps && Writes(p, n);
          if p != last {
            assert p in init && n in RunOf(init);
            assert n.key.Stamped() == p.stamp != last.stamp;
          }
        }
      }
    }
  }

  /** Whatever the order and however often each patch is applied, the state is the same. */
  lemma {:induction false} Converges(a: seq<Node>, ps: seq<Patch>, b: seq<Node>, qs: seq<Patch>)
    requires Sorted(a) && Sorted(b)
    requires (iset n | n in a) == RunOf(ps) && (iset n | n in b) == RunOf(qs)
    requires OneStampOnePatch(ps) && forall p :: p in ps <==> p in qs
    ensures a == b
  {
    RunIsWhatIsWritten(ps);
    RunIsWhatIsWritten(qs);
    forall n
      ensures n in a <==> n in b
    {
      assert n in a <==> n in RunOf(ps);
      assert n in b <==> n in RunOf(qs);
    }
    SortedIsUnique(a, b);
  }

  /** Times at which reading sees a patch. */
  ghost predicate Visible(s: Stamp)
  {
    s.time < MAX_INT64 || (s.time == MAX_INT64 && s.origin == "")
  }

  ghost predicate WinsAt(ps: seq<Patch>, path: Path, p: Patch)
  {
    && p in ps && Reach(p.fields, path).Some? && Visible(p.stamp)
    && forall q :: q in ps && Reach(q.fields, path).Some? && Visible(q.stamp) ==> q == p || StampLess(q.stamp, p.stamp)
  }

  lemma {:induction false} VisibleUpToPivot(k: Key)
    ensures AtOrAbove(k, NewPivot(k.path, true)) <==> Visible(k.Stamped())
  {
    PathTrichotomy(k.path, k.path);
  }

  /** The entry read at a path is the one of the patch with the greatest stamp that has a value there. */
  lemma {:induction false} LastWriterWins(nodes: seq<Node>, ps: seq<Patch>, path: Path, n: Node)
    requires OneStampOnePatch(ps) && (iset n | n in nodes) == RunOf(ps) && IsLatest(nodes, path, n)
    ensures exists p :: WinsAt(ps, path, p) && n == NodeFor(p.stamp, path, Reach(p.fields, path).value)
  {
    RunIsWhatIsWritten(ps);
    assert n in RunOf(ps);
    var p :| p in ps && Writes(p, n);
    VisibleUpToPivot(n.key);
    forall q | q in ps && Reach(q.fields, path).Some? && Visible(q.stamp)
      ensures q == p || StampLess(q.stamp, p.stamp)
    {
      var m := NodeFor(q.stamp, path, Reach(q.fields, path).value);
      assert Writes(q, m) && Written(ps, m);
      assert m in RunOf(ps) && m in nodes;
      VisibleUpToPivot(m.key);
    }
    assert WinsAt(ps, path, p);
  }

  /** A value is found where some patch has one. */
  lemma {:induction false} NothingMeansNeverWritten(nodes: seq<Node>, ps: seq<Patch>, path: Path)
    requires OneStampOnePatch(ps) && (iset n | n in nodes) == RunOf(ps)
    ensures NothingAt(nodes, path) <==> forall p :: p in ps && Visible(p.stamp) ==> Reach(p.fields, path) == None
  {
    RunIsWhatIsWritten(ps);
    if NothingAt(nodes, path) {
      forall p | p in ps && Visible(p.stamp)
        ensures Reach(p.fields, path) == None
      {
        if Reach(p.fields, path).Some? {
          var m := NodeFor(p.stamp, path, Reach(p.fields, path).value);
          assert Writes(p, m) && Written(ps, m);
          assert m in RunOf(ps) && m in nodes;
          VisibleUpToPivot(m.key);
        }
      }
    } else {
      var m :| m in nodes && m.key.path == path && AtOrAbove(m.key, NewPivot(path, true));
      assert m in RunOf(ps);
      var p :| p in ps && Writes(p, m);
      VisibleUpToPivot(m.key);
    }
  }

  // ---- What is read of the values written ----

  /** What reading gives for a value of a patch, told by its shape. */
  ghost predicate ReadAs(v: Value, r: Option<Value>)
  {
    && (forall c :: v == Object(map["#list" := c]) ==> r == None)
    && (forall x :: v == Object(map["#map" := x]) ==> r == Some(x))
    && ((forall x :: v != Object(map["#list" := x]) && v != Object(map["#map" := x])) ==> r == Some(v))
  }

  lemma {:induction false} StoredIsRead(v: Value, n: Node, r: Option<Value>)
    requires StoredAs(v, n.kind, n.value) && r == if n.kind == ListChunk then None else Some(n.value)
    ensures ReadAs(v, r)
  {
    var list, atomic := map["#list" := n.value], map["#map" := n.value];
    assert "#list" in list && "#map" in atomic && "#map" !in list && "#list" !in atomic;
    forall x, tag | v == Object(map[tag := x])
      ensures tag in v.fields && v.fields[tag] == x
    {
    }
  }

  /** Later than the other: by time, and by origin at the same time. */
  predicate Later(a: Stamp, b: Stamp)
  {
    a.time > b.time || (a.time == b.time && Lex.Less(b.origin, a.origin))
  }

  /** The patch leads somewhere, and is later than all others visible that do. */
  ghost predicate IsLastWriter(ps: seq<Patch>, path: Path, p: Patch)
  {
    && p in ps && Reach(p.fields, path).Some? && Visible(p.stamp)
    && forall q :: q in ps && Reach(q.fields, path).Some? && Visible(q.stamp) && q != p ==> Later(p.stamp, q.stamp)
  }

  /** Reading a path gives the value that the last visible patch has there, in the form that its shape tells, and
      nothing where no visible patch leads. */
  lemma {:induction false} LastValueIsRead(nodes: seq<Node>, ps: seq<Patch>, path: Path, r: Option<Value>)
    requires OneStampOnePatch(ps) && (iset n | n in nodes) == RunOf(ps) && IsReading(nodes, path, r)
    ensures forall p :: IsLastWriter(ps, path, p) ==> ReadAs(Reach(p.fields, path).value, r)
    ensures (exists p :: IsLastWriter(ps, path, p)) || (r == if path == [] then Some(Nil) else None)
  {
    NothingMeansNeverWritten(nodes, ps, path);
    if n :| IsLatest(nodes, path, n) {
      LastWriterWins(nodes, ps, path, n);
      var w :| WinsAt(ps, path, w) && n == NodeFor(w.stamp, path, Reach(w.fields, path).value);
      UnwrapStores(Reach(w.fields, path).value);
      StoredIsRead(Reach(w.fields, path).value, n, r);
      assert IsLastWriter(ps, path, w);
      forall p | IsLastWriter(ps, path, p)
        ensures p == w
      {
        if p != w {
          StampTrichotomy(p.stamp, w.stamp);
        }
      }
    } else {
      assert forall p :: !IsLastWriter(ps, path, p);
    }
  }

  /** A chunk written is in the list under its path, with the items it inserts. */
  lemma {:induction false} ChunkIsHeld(p: Patch, path: Path, c: Value, n: Node)
    requires Reach(p.fields, path) == Some(Object(map["#list" := c])) && Writes(p, n) && n.key.path == path
    ensures n == Node(Key(path, p.stamp.time, p.stamp.origin), ListChunk, c)
  {
    var v := Object(map["#list" := c]);
    assert v.fields.Keys == {"#list"} && v.fields["#list"] == c;
  }

  // ---- Forgetting ----

  function Others(ps: seq<Patch>, stamp: Stamp): seq<Patch>
  {
    if ps == [] then []
    else Others(ps[..|ps| - 1], stamp) + if ps[|ps| - 1].stamp == stamp then [] else [ps[|ps| - 1]]
  }

  /** Forgetting a stamp commutes with the patches of other stamps. */
  lemma {:induction false} ForgetCommutes(nodes: iset<Node>, p: Patch, stamp: Stamp)
    requires p.stamp != stamp
    ensures Without(Overlay(nodes, p), stamp) == Overlay(Without(nodes, stamp), p)
  {
  }

  /** Forgetting undoes a patch exactly when no other node had its stamp. */
  lemma {:induction false} ForgetUndoes(nodes: iset<Node>, p: Patch)
    ensures Without(Overlay(nodes, p), p.stamp) == nodes <==> forall n :: n in nodes ==> n.key.Stamped() != p.stamp
  {
    assert Without(Overlay(nodes, p), p.stamp) == Without(nodes, p.stamp);
    forall n | n in nodes && n.key.Stamped() == p.stamp
      ensures Without(nodes, p.stamp) != nodes
    {
      assert n !in Without(nodes, p.stamp);
    }
  }

  /** Wherever they stood in the history, forgotten patches leave no trace. */
  lemma {:induction false} ForgottenLeaveNoTrace(ps: seq<Patch>, stamp: Stamp)
    ensures Without(RunOf(ps), stamp) == RunOf(Others(ps, stamp))
  {
    if ps != [] {
      var init, last := ps[..|ps| - 1], ps[|ps| - 1];
      ForgottenLeaveNoTrace(init, stamp);
      if last.stamp == stamp {
        assert Without(Overlay(RunOf(init), last), stamp) == Without(RunOf(init), stamp);
        assert Others(ps, stamp) == Others(init, stamp);
      } else {
        ForgetCommutes(RunOf(init), last, stamp);
        assert Others(ps, stamp)[..|Others(ps, stamp)| - 1] == Others(init, stamp);
      }
    }
  }

  // ---- What the scans amount to ----

  ghost predicate EntryAt(nodes: seq<Node>, path: Path, n: Node)
  {
    n in nodes && n.key.path == path && AtOrAbove(NewPivot(path, false), n.key)
  }

  /** The entries at a path are all there, in the order of their stamps. */
  lemma {:induction false} EntriesAtAll(nodes: seq<Node>, path: Path)
    requires Sorted(nodes)
    ensures Sorted(EntriesAt(nodes, path))
    ensures forall n :: n in EntriesAt(nodes, path) <==> EntryAt(nodes, path, n)
  {
    if nodes != [] {
      var head, rest := nodes[0], nodes[1..];
      assert nodes == [head] + rest;
      EntriesAtAll(rest, path);
      forall n | n in EntriesAt(rest, path)
        ensures Less(head.key, n.key)
      {
        assert EntryAt(rest, path, n);
      }
      if EntryAt(nodes, path, head) {
        ConsSorted(head, EntriesAt(rest, path));
        assert EntriesAt(nodes, path) == [head] + EntriesAt(rest, path);
      } else {
        assert EntriesAt(nodes, path) == EntriesAt(rest, path);
      }
    }
  }

  predicate IsChunk(n: Node)
  {
    n.kind == ListChunk && IsInsert(n.value)
  }

  predicate AllChunks(entries: seq<Node>)
  {
    forall i :: 0 <= i < |entries| ==> IsChunk(entries[i])
  }

  /** All items inserted by the chunks, one chunk after another. */
  function Inserted(entries: seq<Node>): seq<Value>
    requires AllChunks(entries)
  {
    if entries == [] then []
    else
      assert IsChunk(entries[0]);
      entries[0].value.fields["#ins"].items + Inserted(entries[1..])
  }

  lemma {:induction false} AllChunksListed(entries: seq<Node>)
    requires AllChunks(entries)
    ensures Chunks(entries) == Listed(Inserted(entries), entries != [])
  {
    if entries != [] {
      assert IsChunk(entries[0]);
      AllChunksListed(entries[1..]);
    }
  }

  /** The list is what the leading chunks insert; a leading chunk that inserts nothing makes reading panic. */
  lemma {:induction false} LeadingChunks(entries: seq<Node>, k: nat)
    requires k <= |entries| && AllChunks(entries[..k])
    ensures k == |entries| || entries[k].kind != ListChunk ==> Chunks(entries) == Listed(Inserted(entries[..k]), k > 0)
    ensures k < |entries| && entries[k].kind == ListChunk && !IsInsert(entries[k].value) ==> Chunks(entries) == Panics
  {
    if k > 0 {
      var rest := entries[1..];
      assert IsChunk(entries[..k][0]);
      assert entries[..k][1..] == rest[..k - 1];
      var lead := rest[..k - 1];
      forall i | 0 <= i < |lead|
        ensures IsChunk(lead[i])
      {
        assert lead[i] == entries[..k][i + 1];
      }
      LeadingChunks(rest, k - 1);
    }
  }

  /** When every entry at a path is a list chunk with a time that is not negative, the list is the
      concatenation of all of them in the order of their stamps. */
  lemma {:induction false} ListIsAllChunks(nodes: seq<Node>, path: Path)
    requires Sorted(nodes)
    requires forall n :: n in nodes && n.key.path == path ==> IsChunk(n) && n.key.time >= 0
    ensures
      var entries := EntriesAt(nodes, path);
      && Sorted(entries)
      && (forall n :: n in entries <==> n in nodes && n.key.path == path)
      && AllChunks(entries) && Chunks(entries) == Listed(Inserted(entries), entries != [])
  {
    EntriesAtAll(nodes, path);
    forall n
      ensures n in EntriesAt(nodes, path) <==> n in nodes && n.key.path == path
    {
      if n in nodes && n.key.path == path {
        assert IsChunk(n) && n.key.time >= 0;
        assert EntryAt(nodes, path, n);
      }
    }
    forall i | 0 <= i < |EntriesAt(nodes, path)|
      ensures IsChunk(EntriesAt(nodes, path)[i])
    {
      assert EntriesAt(nodes, path)[i] in EntriesAt(nodes, path);
    }
    AllChunksListed(EntriesAt(nodes, path));
  }

  lemma {:induction false} ExtendedPaths(path: Path, a: string, b: string)
    ensures PathLess(path + [a], path + [b]) <==> Lex.Less(a, b)
  {
    if path == [] {
      assert path + [a] == [a] && path + [b] == [b] && [a][1..] == [] && [b][1..] == [];
    } else {
      assert (path + [a])[1..] == path[1..] + [a] && (path + [b])[1..] == path[1..] + [b];
      ExtendedPaths(path[1..], a, b);
      Lex.Irreflexive(path[0]);
    }
  }

  /** Only an empty name at a negative time is out of the reach of the scan for children. */
  lemma {:induction false} SeenUnlessEmptyAndNegative(path: Path, name: string, stamp: Stamp)
    ensures SeenChild(path, Key(path + [name], stamp.time, stamp.origin)) <==> name != "" || stamp.time >= 0
  {
    ExtendedPaths(path, "", name);
    assert (path + [name])[|path|] == name && (path + [""])[|path|] == "";
  }

  /** With times that are not negative the names listed are all those of direct children. */
  lemma {:induction false} KeysAreAllChildren(nodes: seq<Node>, path: Path, name: string)
    requires forall n :: n in nodes ==> n.key.time >= 0
    ensures IsChild(nodes, path, name) <==> exists n :: n in nodes && n.key.path == path + [name]
  {
    forall n | n in nodes && n.key.path == path + [name]
      ensures SeenChild(path, n.key)
    {
      SeenUnlessEmptyAndNegative(path, name, n.key.Stamped());
    }
  }
}

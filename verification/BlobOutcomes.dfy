/** What transactions on blobs and drafts achieve, told by the tables before and after them
    (backend/hyper/blockstore.go, backend/hyper/hyper.go). */
module BlobOutcomes {
  import opened Options
  import opened BlobTable

  predicate HasData(t: Table, h: Hash)
  {
    h in t.rows && t.rows[h].size >= 0
  }

  /** All rows but one are as before. */
  ghost predicate OthersKept(t: Table, t': Table, h: Hash)
  {
    forall g :: g in t.rows && g != h ==> g in t'.rows && t'.rows[g] == t.rows[g]
  }

  /** The only new rows are of hashes that became known; they have no data. */
  ghost predicate OnlyKnownAdded(t: Table, t': Table, h: Hash, links: seq<Hash>)
  {
    && (forall l :: l in links ==> l in t'.rows)
    && forall g :: g in t'.rows && g !in t.rows && g != h ==> g in links && t'.rows[g].size == -1 && t'.rows[g].id > t.last
  }

  /** The blob has a row with its data and that id, what it links to is known, and nothing else has changed. */
  ghost predicate PlacedAs(t: Table, t': Table, b: Blob, id: nat)
  {
    && b.hash in t'.rows && t'.rows[b.hash] == Row(id, b.size)
    && OthersKept(t, t', b.hash) && OnlyKnownAdded(t, t', b.hash, b.links)
    && t.last <= t'.last && id <= t'.last
  }

  /** Data that is there stays as it is; other data comes in above all ids given out. */
  ghost predicate RowsStored(t: Table, t': Table, b: Blob)
  {
    if HasData(t, b.hash) then t'.rows == t.rows && t'.last == t.last else PlacedAs(t, t', b, t.last + 1)
  }

  /** A blob can be stored if its data is there, or if it can be indexed and no draft is at its row. */
  predicate CanStore(t: Table, b: Blob)
  {
    HasData(t, b.hash) || (b.indexes && !(b.hash in t.rows && IsDraft(t, t.rows[b.hash].id)))
  }

  ghost predicate Stored(t: Table, t': Table, b: Blob)
  {
    RowsStored(t, t', b) && t'.drafts == t.drafts
  }

  lemma {:induction false} LinksKnown(t: Table, hs: seq<Hash>)
    ensures
      var t' := EnsureBlobs(t, hs);
      && t'.drafts == t.drafts && t.last <= t'.last
      && (forall g :: g in t.rows ==> g in t'.rows && t'.rows[g] == t.rows[g])
      && (forall l :: l in hs ==> l in t'.rows)
      && forall g :: g in t'.rows && g !in t.rows ==> g in hs && t'.rows[g].size == -1 && t'.rows[g].id > t.last
  {
    if hs != [] {
      LinksKnown(t, hs[..|hs| - 1]);
      assert hs == hs[..|hs| - 1] + [hs[|hs| - 1]];
    }
  }

  lemma {:induction false} BlockPlaced(t: Table, inID: nat, b: Blob, id: nat)
    requires !HasData(t, b.hash) && PutBlock(t, inID, b.hash, b.size).Some?
    requires id == if inID == 0 || b.hash in t.rows then t.last + 1 else inID
    ensures
      var p := PutBlock(t, inID, b.hash, b.size).value;
      !p.found && p.id == id && p.table.drafts == t.drafts && PlacedAs(t, EnsureBlobs(p.table, b.links), b, id)
  {
    LinksKnown(PutBlock(t, inID, b.hash, b.size).value.table, b.links);
  }

  lemma {:induction false} SaveStores(t: Table, b: Blob)
    ensures SaveBlob(t, b).Some? <==> CanStore(t, b)
    ensures SaveBlob(t, b).Some? ==>
      var p := SaveBlob(t, b).value;
      Stored(t, p.table, b) && b.hash in p.table.rows && p.id == p.table.rows[b.hash].id
  {
    if !HasData(t, b.hash) && CanStore(t, b) {
      BlockPlaced(t, 0, b, t.last + 1);
      LinksKnown(PutBlock(t, 0, b.hash, b.size).value.table, b.links);
    }
  }

  /** What came in new is listable. */
  lemma {:induction false} NewIsListable(t: Table, t': Table, b: Blob)
    requires Valid(t) && Stored(t, t', b)
    ensures b.hash in t'.rows && t'.rows[b.hash].size >= 0
    ensures Listable(t', b.hash) <==> !(HasData(t, b.hash) && IsDraft(t, t.rows[b.hash].id))
  {
    forall r | r in t.drafts
      ensures t.drafts[r] <= t.last
    {
      assert SomeRow(t, t.drafts[r]);
      var h :| h in t.rows && t.rows[h].id == t.drafts[r];
      assert RowWell(t, h);
    }
  }

  // ---- Several blobs ----

  ghost predicate StoresAt(ts: seq<Table>, bs: seq<Blob>, i: nat)
    requires i < |bs| && i + 1 < |ts|
  {
    CanStore(ts[i], bs[i]) && Stored(ts[i], ts[i + 1], bs[i])
  }

  /** One blob is stored after another. */
  ghost predicate StoresInTurn(t: Table, ts: seq<Table>, bs: seq<Blob>)
  {
    |ts| == |bs| + 1 && ts[0] == t && forall i :: 0 <= i < |bs| ==> StoresAt(ts, bs, i)
  }

  ghost predicate AllStored(t: Table, t': Table, bs: seq<Blob>)
  {
    exists ts :: StoresInTurn(t, ts, bs) && ts[|bs|] == t'
  }

  /** Some blob cannot be stored when it is its turn. */
  ghost predicate SomeRefused(t: Table, bs: seq<Blob>)
  {
    exists i: nat, ts :: i < |bs| && StoresInTurn(t, ts, bs[..i]) && !CanStore(ts[i], bs[i])
  }

  lemma {:induction false} InTurnSnoc(t: Table, ts: seq<Table>, t': Table, bs: seq<Blob>, b: Blob)
    requires StoresInTurn(t, ts, bs) && CanStore(ts[|bs|], b) && Stored(ts[|bs|], t', b)
    ensures StoresInTurn(t, ts + [t'], bs + [b])
  {
    var more, all := ts + [t'], bs + [b];
    forall i | 0 <= i < |all|
      ensures StoresAt(more, all, i)
    {
      assert i < |bs| ==> StoresAt(ts, bs, i);
    }
  }

  lemma {:induction false} ManyStored(t: Table, bs: seq<Blob>)
    ensures PutMany(t, bs).Some? ==> AllStored(t, PutMany(t, bs).value, bs)
    ensures PutMany(t, bs) == None ==> SomeRefused(t, bs)
  {
    if bs == [] {
      assert StoresInTurn(t, [t], []);
    } else {
      var n := |bs| - 1;
      var init := bs[..n];
      ManyStored(t, init);
      assert bs == init + [bs[n]];
      if PutMany(t, init).Some? {
        var ts :| StoresInTurn(t, ts, init) && ts[n] == PutMany(t, init).value;
        SaveStores(ts[n], bs[n]);
        if PutMany(t, bs).Some? {
          InTurnSnoc(t, ts, PutMany(t, bs).value, init, bs[n]);
        }
      } else {
        var i: nat, ts :| i < |init| && StoresInTurn(t, ts, init[..i]) && !CanStore(ts[i], init[i]);
        assert init[..i] == bs[..i];
      }
    }
  }

  // ---- Drafts ----

  /** Stored as a draft: hidden until it is published. */
  ghost predicate StoredAsDraft(t: Table, t': Table, r: Resource, b: Blob)
  {
    RowsStored(t, t', b) && b.hash in t'.rows && t'.drafts == t.drafts[r := t'.rows[b.hash].id] && !Listable(t', b.hash)
  }

  lemma {:induction false} DraftSaved(t: Table, r: Resource, b: Blob)
    ensures SaveDraft(t, r, b).Some? <==> CanStore(t, b) && r !in t.drafts
    ensures SaveDraft(t, r, b).Some? ==> StoredAsDraft(t, SaveDraft(t, r, b).value, r, b)
  {
    SaveStores(t, b);
    if SaveDraft(t, r, b).Some? {
      var t' := SaveDraft(t, r, b).value;
      assert r in t'.drafts && t'.drafts[r] == t'.rows[b.hash].id;
    }
  }

  /** The drafts at an id are gone. */
  ghost predicate DraftsGone(t: Table, t': Table, id: nat)
  {
    && (forall q :: q in t'.drafts <==> q in t.drafts && t.drafts[q] != id)
    && forall q :: q in t'.drafts ==> t'.drafts[q] == t.drafts[q]
  }

  /** A row is gone, with the drafts at it. */
  ghost predicate RowGone(t: Table, t': Table, h: Hash)
  {
    && t'.rows == t.rows - {h} && t'.last == t.last
    && if h in t.rows then DraftsGone(t, t', t.rows[h].id) else t'.drafts == t.drafts
  }

  lemma {:induction false} DeleteRemoves(t: Table, h: Hash)
    ensures RowGone(t, Deleted(t, h), h)
  {
    assert h !in t.rows ==> t.rows - {h} == t.rows;
  }

  /** Where the new draft goes: to the id of the old one, if its hash is not known yet. */
  function DraftId(t: Table, prev: Hash, b: Blob): nat
  {
    if prev in t.rows && (b.hash == prev || b.hash !in t.rows) then t.rows[prev].id else t.last + 1
  }

  /** With the old draft out of the way: the data is there already, or the blob can be stored as the draft. */
  predicate CanDraft(t: Table, r: Resource, b: Blob)
  {
    HasData(t, b.hash) || (CanStore(t, b) && r !in t.drafts)
  }

  /** If the data of the new draft is there already it is enough that the old one is gone. Otherwise the new one is
      the draft, and hidden. */
  ghost predicate ReplacedFrom(t: Table, gone: Table, t': Table, r: Resource, prev: Hash, b: Blob)
  {
    if HasData(gone, b.hash) then t' == gone
    else
      && PlacedAs(gone, t', b, DraftId(t, prev, b)) && t'.drafts == gone.drafts[r := DraftId(t, prev, b)]
      && !Listable(t', b.hash)
  }

  ghost predicate DraftReplaced(t: Table, t': Table, r: Resource, prev: Hash, b: Blob)
  {
    exists gone :: RowGone(t, gone, prev) && CanDraft(gone, r, b) && ReplacedFrom(t, gone, t', r, prev, b)
  }

  ghost predicate CanReplaceDraft(t: Table, r: Resource, prev: Hash, b: Blob, kept: bool)
  {
    !(kept && prev in t.rows) && exists gone :: RowGone(t, gone, prev) && CanDraft(gone, r, b)
  }

  lemma {:induction false} GoneIsGone(t: Table, a: Table, b: Table, h: Hash)
    requires RowGone(t, a, h) && RowGone(t, b, h)
    ensures a == b
  {
    assert a.drafts == b.drafts;
  }

  lemma {:induction false} DraftGoesIn(gone: Table, p: Placed, r: Resource, b: Blob, id: nat)
    requires PlacedAs(gone, EnsureBlobs(p.table, b.links), b, id) && p.id == id && p.table.drafts == gone.drafts
    ensures
      var drafted := InsertDraft(EnsureBlobs(p.table, b.links), r, p.id);
      && (drafted.Some? <==> r !in gone.drafts)
      && (drafted.Some? ==>
            && PlacedAs(gone, drafted.value, b, id) && drafted.value.drafts == gone.drafts[r := id]
            && !Listable(drafted.value, b.hash))
  {
    LinksKnown(p.table, b.links);
    var drafted := InsertDraft(EnsureBlobs(p.table, b.links), r, p.id);
    if drafted.Some? {
      var t' := drafted.value;
      assert r in t'.drafts && t'.drafts[r] == t'.rows[b.hash].id;
    }
  }

  lemma {:induction false} DraftPlaced(t: Table, r: Resource, prev: Hash, b: Blob, gone: Table)
    requires Valid(t) && gone == Deleted(t, prev)
    ensures Replaced(t, r, prev, b).Some? <==> CanDraft(gone, r, b)
    ensures Replaced(t, r, prev, b).Some? ==> ReplacedFrom(t, gone, Replaced(t, r, prev, b).value, r, prev, b)
  {
    var oldid := if prev in t.rows then t.rows[prev].id else 0;
    assert prev in t.rows ==> RowWell(t, prev);
    var placed := PutBlock(gone, oldid, b.hash, b.size);
    if !HasData(gone, b.hash) && placed.Some? {
      BlockPlaced(gone, oldid, b, DraftId(t, prev, b));
      DraftGoesIn(gone, placed.value, r, b, DraftId(t, prev, b));
    }
  }

  lemma {:induction false} DraftIsReplaced(t: Table, r: Resource, prev: Hash, b: Blob, kept: bool)
    requires Valid(t)
    ensures ReplaceDraft(t, r, prev, b, kept).Some? <==> CanReplaceDraft(t, r, prev, b, kept)
    ensures ReplaceDraft(t, r, prev, b, kept).Some? ==>
      DraftReplaced(t, ReplaceDraft(t, r, prev, b, kept).value, r, prev, b)
  {
    var gone := Deleted(t, prev);
    DeleteRemoves(t, prev);
    DraftPlaced(t, r, prev, b, gone);
    forall g | RowGone(t, g, prev)
      ensures g == gone
    {
      GoneIsGone(t, g, gone, prev);
    }
  }

  // ---- Publishing ----

  /** The row with the id has the next one of the sequence, and all else is as before. */
  ghost predicate Renumbered(t: Table, t': Table, id: nat)
  {
    && t'.rows.Keys == t.rows.Keys && t'.last == t.last + 1
    && forall h :: h in t.rows ==>
        t'.rows[h] == if t.rows[h].id == id then Row(t.last + 1, t.rows[h].size) else t.rows[h]
  }

  /** The drafts at the id are gone and its row is at an id above all given out: it is listable if its data is there. */
  ghost predicate DraftPublished(t: Table, t': Table, r: Resource)
    requires r in t.drafts
  {
    && DraftsGone(t, t', t.drafts[r]) && Renumbered(t, t', t.drafts[r])
    && forall h :: h in t.rows && t.rows[h].id == t.drafts[r] ==> (Listable(t', h) <==> HasData(t, h))
  }

  lemma {:induction false} NoDraftAboveLast(t: Table)
    requires Valid(t)
    ensures forall r :: r in t.drafts ==> t.drafts[r] <= t.last
  {
    forall r | r in t.drafts
      ensures t.drafts[r] <= t.last
    {
      assert SomeRow(t, t.drafts[r]);
      var h :| h in t.rows && t.rows[h].id == t.drafts[r];
      assert RowWell(t, h);
    }
  }

  lemma {:induction false} PublishesDraft(t: Table, r: Resource)
    requires Valid(t)
    ensures PublishDraft(t, r).Some? <==> r in t.drafts
    ensures PublishDraft(t, r).Some? ==> DraftPublished(t, PublishDraft(t, r).value, r)
  {
    NoDraftAboveLast(t);
  }

  /** A blob whose data is there is published unless a draft is at its row, once any id was given out. */
  predicate CanPublish(t: Table, h: Hash)
  {
    t.last > 0 && !(HasData(t, h) && IsDraft(t, t.rows[h].id))
  }

  /** With its data there the blob is listable, above all ids given out; without it only an id is used up. */
  ghost predicate Published(t: Table, t': Table, h: Hash)
  {
    && t'.drafts == t.drafts
    && if HasData(t, h) then Renumbered(t, t', t.rows[h].id) && Listable(t', h)
       else t'.rows == t.rows && t'.last == t.last + 1
  }

  lemma {:induction false} PublishesBlob(t: Table, h: Hash)
    requires Valid(t)
    ensures PublishBlob(t, h).Some? <==> CanPublish(t, h)
    ensures PublishBlob(t, h).Some? ==> Published(t, PublishBlob(t, h).value, h)
  {
    NoDraftAboveLast(t);
  }

  // ---- Deleting ----

  /** The row of the draft is gone, with all drafts at it. */
  ghost predicate DraftDeleted(t: Table, t': Table, r: Resource)
    requires r in t.drafts
  {
    && DraftsGone(t, t', t.drafts[r]) && t'.last == t.last
    && (forall h :: h in t'.rows <==> h in t.rows && t.rows[h].id != t.drafts[r])
    && forall h :: h in t'.rows ==> t'.rows[h] == t.rows[h]
  }

  lemma {:induction false} DeletesDraft(t: Table, r: Resource, kept: bool)
    ensures DeleteDraft(t, r, kept).Some? <==> r in t.drafts && !kept
    ensures DeleteDraft(t, r, kept).Some? ==> DraftDeleted(t, DeleteDraft(t, r, kept).value, r)
  {
  }

  /** A draft at the row of one of the hashes. */
  ghost predicate DraftOfSome(t: Table, hs: seq<Hash>, q: Resource)
    requires q in t.drafts
  {
    exists h :: h in hs && h in t.rows && t.rows[h].id == t.drafts[q]
  }

  /** The rows of these hashes are gone, with the drafts at them. */
  ghost predicate RowsGone(t: Table, t': Table, hs: seq<Hash>)
  {
    && (forall h :: h in t'.rows <==> h in t.rows && h !in hs)
    && (forall h :: h in t'.rows ==> t'.rows[h] == t.rows[h])
    && (forall q :: q in t'.drafts <==> q in t.drafts && !DraftOfSome(t, hs, q))
    && (forall q :: q in t'.drafts ==> t'.drafts[q] == t.drafts[q]) && t'.last == t.last
  }

  lemma {:induction false} DeletesMany(t: Table, hs: seq<Hash>)
    requires Valid(t)
    ensures RowsGone(t, DeleteMany(t, hs), hs)
  {
    if hs != [] {
      var init, h := hs[..|hs| - 1], hs[|hs| - 1];
      var mid, t' := DeleteMany(t, init), DeleteMany(t, hs);
      DeletesMany(t, init);
      assert hs == init + [h];
      DeleteRemoves(mid, h);
      forall q | q in t.drafts
        ensures q in t'.drafts <==> !DraftOfSome(t, hs, q)
      {
        assert DraftOfSome(t, hs, q) <==> DraftOfSome(t, init, q) || (h in t.rows && t.rows[h].id == t.drafts[q]);
        assert h in init && h in t.rows && t.rows[h].id == t.drafts[q] ==> DraftOfSome(t, init, q);
      }
    }
  }

  // ---- Hashes without data ----

  /** The hash is known afterwards; a new one has no data. */
  ghost predicate Known(t: Table, t': Table, h: Hash)
  {
    if h in t.rows then t' == t
    else t'.rows == t.rows[h := Row(t.last + 1, -1)] && t'.drafts == t.drafts && t'.last == t.last + 1
  }

  /** The row keeps its id and loses its data. */
  ghost predicate DataGone(t: Table, t': Table, h: Hash)
  {
    && t'.rows.Keys == t.rows.Keys && t'.drafts == t.drafts && t'.last == t.last
    && forall g :: g in t.rows ==> t'.rows[g] == if g == h then Row(t.rows[g].id, -1) else t.rows[g]
  }

  lemma {:induction false} BecomesKnown(t: Table, h: Hash)
    ensures Known(t, EnsureBlob(t, h), h) && DataGone(t, Emptied(t, h), h)
  {
  }
}

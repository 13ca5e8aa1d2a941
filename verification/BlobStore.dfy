/** The store of blobs: transactions over its tables, and the listing served to other peers
    (backend/hyper/blockstore.go, backend/hyper/hyper.go, backend/mttnet/list_blobs.go). */
module BlobStore {
  import opened Options
  import opened BlobOutcomes
  import opened BlobTable

  /** Nothing is left of a transaction rolled back. */
  function OrSame(r: Option<Table>, t: Table): Table
  {
    if r.Some? then r.value else t
  }

  datatype Item = Item(id: nat, hash: Hash)

  predicate Ascending(items: seq<Item>)
  {
    forall i, j :: 0 <= i < j < |items| ==> items[i].id < items[j].id
  }

  predicate ItemWell(t: Table, from: nat, it: Item)
  {
    Listable(t, it.hash) && t.rows[it.hash].id == it.id && it.id > from
  }

  /** All listable blobs above an id, in the order of ids. */
  ghost predicate IsListing(t: Table, from: nat, items: seq<Item>)
  {
    && Ascending(items)
    && (forall i :: 0 <= i < |items| ==> ItemWell(t, from, items[i]))
    && (forall h :: Listable(t, h) && t.rows[h].id > from ==> Item(t.rows[h].id, h) in items)
  }

  ghost predicate IsMaxId(t: Table, max: nat)
  {
    (max == 0 || SomeRow(t, max)) && forall h :: h in t.rows ==> t.rows[h].id <= max
  }

  /** Where the listing for a cursor starts, given the greatest id: nowhere for the id itself, and at the
      beginning for a cursor further than the table. */
  function StartOf(cursor: nat, max: nat): Option<nat>
  {
    if cursor == max then None else if cursor > max then Some(0) else Some(cursor)
  }

  /** A blob whose hash becomes known is not listed, and nothing else changes. */
  ghost predicate OnlyKnown(t: Table, t': Table, h: Hash)
  {
    && t'.rows.Keys == t.rows.Keys + {h} && t'.drafts == t.drafts
    && (forall g :: g in t.rows ==> t'.rows[g] == t.rows[g])
    && (h !in t.rows ==> t'.rows[h].size == -1)
    && (forall g :: Listable(t', g) <==> Listable(t, g))
  }

  class Storage {
    var rows: map<Hash, Row>
    var drafts: map<Resource, nat>
    var last: nat

    function Now(): Table
      reads this
    {
      Table(rows, drafts, last)
    }

    constructor ()
      ensures Now() == EMPTY
    {
      rows, drafts, last := map[], map[], 0;
    }

    method Restore(t: Table)
      modifies this
      ensures Now() == t
    {
      rows, drafts, last := t.rows, t.drafts, t.last;
    }

    /** The new id is above all ids of rows, and above all given out before. Fails while none was given out:
        the sequence has no row of its own then. */
    method AllocateBlobID() returns (id: Option<nat>)
      requires BlobTable.Valid(Now())
      modifies this`last
      ensures BlobTable.Keeps(old(Now()), Now())
      ensures id == None <==> old(last) == 0
      ensures id == None ==> last == old(last)
      ensures id.Some? ==> id.value == last == old(last) + 1 && forall h :: h in rows ==> rows[h].id < id.value
    {
      assert forall h :: h in rows ==> RowWell(Now(), h);
      ghost var was := Now();
      if last == 0 {
        SameKeeps(was, "");
        return None;
      }
      last := last + 1;
      NextIdKeeps(was);
      return Some(last);
    }

    method PutBlock(inID: nat, h: Hash, size: nat) returns (r: Option<(nat, bool)>)
      requires BlobTable.Valid(Now())
      modifies this
      ensures r.Some? <==> BlobTable.PutBlock(old(Now()), inID, h, size).Some?
      ensures r.Some? ==> BlobTable.PutBlock(old(Now()), inID, h, size) == Some(Placed(Now(), r.value.0, r.value.1))
      ensures r == None <==> !HasData(old(Now()), h) && h in old(rows) && IsDraft(old(Now()), old(rows)[h].id)
      ensures r.Some? && HasData(old(Now()), h) ==> r.value == (old(rows)[h].id, true) && Now() == old(Now())
      ensures r.Some? && !HasData(old(Now()), h) ==>
        && r.value == (if inID == 0 || h in old(rows) then old(last) + 1 else inID, false)
        && rows == old(rows)[h := Row(r.value.0, size)] && drafts == old(drafts)
        && last == if r.value.0 > old(last) then r.value.0 else old(last)
    {
      if h in rows && rows[h].size >= 0 {
        return Some((rows[h].id, true));
      }
      if h in rows {
        assert RowWell(Now(), h);
        var newID := AllocateBlobID();
        if IsDraft(Now(), rows[h].id) {
          return None;
        }
        rows := rows[h := Row(newID.value, size)];
        return Some((newID.value, false));
      }
      var t := Inserted(Now(), inID, h, size);
      var id := IdAfterInsert(Now(), inID);
      Restore(t);
      return Some((id, false));
    }

    /** The hash is known afterwards, nothing new is listed, and all other rows are as before. */
    method EnsureBlob(h: Hash)
      requires BlobTable.Valid(Now())
      modifies this
      ensures BlobTable.Keeps(old(Now()), Now()) && OnlyKnown(old(Now()), Now(), h)
      ensures Now() == BlobTable.EnsureBlob(old(Now()), h) && Known(old(Now()), Now(), h)
    {
      ghost var was := Now();
      BecomesKnown(was, h);
      if h !in rows {
        Restore(Inserted(Now(), 0, h, -1));
      }
      EnsureBlobKeeps(was, h, 0);
      OnlyKnownAfter(was, h);
    }

    method IndexBlob(links: seq<Hash>)
      requires BlobTable.Valid(Now())
      modifies this
      ensures BlobTable.Keeps(old(Now()), Now())
      ensures Now() == EnsureBlobs(old(Now()), links)
    {
      ghost var was := Now();
      assert links[..0] == [];
      SameKeeps(was, "");
      for i := 0 to |links|
        invariant Now() == EnsureBlobs(was, links[..i]) && BlobTable.Keeps(was, Now())
      {
        assert links[..i + 1][..i] == links[..i];
        EnsureBlobsKeeps(was, links[..i + 1], 0);
        EnsureBlob(links[i]);
      }
      assert links[..|links|] == links;
    }

    method SaveBlob(b: Blob) returns (r: Option<nat>)
      requires BlobTable.Valid(Now())
      modifies this
      ensures r.Some? <==> BlobTable.SaveBlob(old(Now()), b).Some?
      ensures r.Some? ==> BlobTable.Keeps(old(Now()), Now())
      ensures r.Some? ==> BlobTable.SaveBlob(old(Now()), b).value.table == Now()
      ensures r.Some? ==> BlobTable.SaveBlob(old(Now()), b).value.id == r.value
      ensures r.Some? <==> CanStore(old(Now()), b)
      ensures r.Some? ==> Stored(old(Now()), Now(), b) && b.hash in rows && r.value == rows[b.hash].id
    {
      ghost var was := Now();
      SaveStores(was, b);
      if BlobTable.SaveBlob(was, b).Some? {
        SaveBlobKeeps(was, b);
      }
      if BlobTable.PutBlock(was, 0, b.hash, b.size).Some? {
        PutBlockKeeps(was, b.hash, b.size);
      }
      var placed := PutBlock(0, b.hash, b.size);
      if placed == None {
        return None;
      }
      if placed.value.1 {
        return Some(placed.value.0);
      }
      if !b.indexes {
        return None;
      }
      IndexBlob(b.links);
      return Some(placed.value.0);
    }

    method Put(b: Blob) returns (ok: bool)
      requires BlobTable.Valid(Now())
      modifies this
      ensures BlobTable.Keeps(old(Now()), Now())
      ensures ok == BlobTable.Put(old(Now()), b).Some? && Now() == OrSame(BlobTable.Put(old(Now()), b), old(Now()))
      ensures (ok <==> CanStore(old(Now()), b)) && if ok then Stored(old(Now()), Now(), b) else Now() == old(Now())
      ensures ok ==>
        && HasData(Now(), b.hash)
        && (Listable(Now(), b.hash) <==> !(HasData(old(Now()), b.hash) && IsDraft(old(Now()), old(rows)[b.hash].id)))
    {
      var saved := Now();
      SameKeeps(saved, "");
      var id := SaveBlob(b);
      if id == None {
        Restore(saved);
      } else {
        NewIsListable(saved, Now(), b);
      }
      return id.Some?;
    }

    method PutMany(bs: seq<Blob>) returns (ok: bool)
      requires BlobTable.Valid(Now())
      modifies this
      ensures BlobTable.Keeps(old(Now()), Now())
      ensures ok == BlobTable.PutMany(old(Now()), bs).Some? && Now() == OrSame(BlobTable.PutMany(old(Now()), bs), old(Now()))
      ensures if ok then AllStored(old(Now()), Now(), bs) else SomeRefused(old(Now()), bs) && Now() == old(Now())
    {
      var saved := Now();
      ManyStored(saved, bs);
      assert bs[..0] == [];
      SameKeeps(saved, "");
      for i := 0 to |bs|
        invariant BlobTable.PutMany(saved, bs[..i]) == Some(Now()) && BlobTable.Keeps(saved, Now())
      {
        assert bs[..i + 1][..i] == bs[..i];
        var id := SaveBlob(bs[i]);
        if id == None {
          Restore(saved);
          ManyFails(saved, bs, i + 1);
          return false;
        }
        PutManyKeeps(saved, bs[..i + 1]);
      }
      assert bs[..|bs|] == bs;
      return true;
    }

    method InsertDraft(r: Resource, id: nat) returns (ok: bool)
      modifies this`drafts
      ensures ok == BlobTable.InsertDraft(old(Now()), r, id).Some?
      ensures Now() == OrSame(BlobTable.InsertDraft(old(Now()), r, id), old(Now()))
    {
      if r in drafts {
        return false;
      }
      drafts := drafts[r := id];
      return true;
    }

    method SaveDraftBlob(r: Resource, b: Blob) returns (ok: bool)
      requires BlobTable.Valid(Now())
      modifies this
      ensures BlobTable.Keeps(old(Now()), Now())
      ensures ok == SaveDraft(old(Now()), r, b).Some? && Now() == OrSame(SaveDraft(old(Now()), r, b), old(Now()))
      ensures ok <==> CanStore(old(Now()), b) && r !in old(drafts)
      ensures if ok then StoredAsDraft(old(Now()), Now(), r, b) else Now() == old(Now())
    {
      var saved := Now();
      DraftSaved(saved, r, b);
      SameKeeps(saved, "");
      if SaveDraft(saved, r, b).Some? {
        SaveDraftKeeps(saved, r, b);
      }
      var id := SaveBlob(b);
      if id == None {
        Restore(saved);
        return false;
      }
      ok := InsertDraft(r, id.value);
      if !ok {
        Restore(saved);
      }
    }

    method DeleteBlock(h: Hash) returns (oldid: nat)
      requires BlobTable.Valid(Now())
      modifies this
      ensures BlobTable.Keeps(old(Now()), Now())
      ensures Now() == Deleted(old(Now()), h) && oldid == if h in old(rows) then old(rows)[h].id else 0
      ensures RowGone(old(Now()), Now(), h)
    {
      DeleteRemoves(Now(), h);
      DeletedKeeps(Now(), h);
      oldid := 0;
      if h in rows {
        oldid := rows[h].id;
        Restore(Deleted(Now(), h));
      }
    }

    /** The old draft cannot be deleted if another blob links to it: then nothing happens. */
    method ReplaceDraftBlob(r: Resource, prev: Hash, b: Blob, kept: bool) returns (ok: bool)
      requires BlobTable.Valid(Now())
      modifies this
      ensures BlobTable.Keeps(old(Now()), Now())
      ensures ok == ReplaceDraft(old(Now()), r, prev, b, kept).Some?
      ensures Now() == OrSame(ReplaceDraft(old(Now()), r, prev, b, kept), old(Now()))
      ensures ok <==> CanReplaceDraft(old(Now()), r, prev, b, kept)
      ensures if ok then DraftReplaced(old(Now()), Now(), r, prev, b) else Now() == old(Now())
    {
      var saved := Now();
      DraftIsReplaced(saved, r, prev, b, kept);
      SameKeeps(saved, "");
      if kept && prev in rows {
        return false;
      }
      if Replaced(saved, r, prev, b).Some? {
        ReplaceDraftKeeps(saved, r, prev, b);
      }
      var oldid := DeleteBlock(prev);
      var placed := PutBlock(oldid, b.hash, b.size);
      if placed == None {
        Restore(saved);
        return false;
      }
      if placed.value.1 {
        return true;
      }
      if !b.indexes {
        Restore(saved);
        return false;
      }
      PlacedIsValid(saved, prev, b);
      IndexBlob(b.links);
      ok := InsertDraft(r, placed.value.0);
      if !ok {
        Restore(saved);
      }
    }

    method PublishDraft(r: Resource) returns (ok: bool)
      requires BlobTable.Valid(Now())
      modifies this
      ensures BlobTable.Keeps(old(Now()), Now())
      ensures ok == BlobTable.PublishDraft(old(Now()), r).Some?
      ensures Now() == OrSame(BlobTable.PublishDraft(old(Now()), r), old(Now()))
      ensures (ok <==> r in old(drafts)) && if ok then DraftPublished(old(Now()), Now(), r) else Now() == old(Now())
    {
      ghost var was := Now();
      PublishesDraft(was, r);
      if r !in drafts {
        SameKeeps(was, "");
        return false;
      }
      PublishDraftKeeps(was, r);
      var id := drafts[r];
      DraftHasId(was, r);
      WithoutDraftsIsValid(was, id);
      Restore(WithoutDrafts(Now(), id));
      Touch(id);
      return true;
    }

    /** Gives the row with the id the next one. */
    method Touch(id: nat)
      requires BlobTable.Valid(Now()) && last > 0
      modifies this
      ensures Now() == Touched(old(Now()), id)
    {
      var newID := AllocateBlobID();
      Restore(WithId(Now(), id, newID.value));
    }

    method PublishBlob(h: Hash) returns (ok: bool)
      requires BlobTable.Valid(Now())
      modifies this
      ensures BlobTable.Keeps(old(Now()), Now())
      ensures ok == BlobTable.PublishBlob(old(Now()), h).Some?
      ensures Now() == OrSame(BlobTable.PublishBlob(old(Now()), h), old(Now()))
      ensures (ok <==> CanPublish(old(Now()), h)) && if ok then Published(old(Now()), Now(), h) else Now() == old(Now())
    {
      var saved := Now();
      PublishesBlob(saved, h);
      SameKeeps(saved, "");
      if BlobTable.PublishBlob(saved, h).Some? {
        PublishBlobKeeps(saved, h);
      }
      var newID := AllocateBlobID();
      if newID == None {
        return false;
      }
      assert Now() == saved.(last := saved.last + 1);
      if h in rows && rows[h].size >= 0 {
        if IsDraft(Now(), rows[h].id) {
          Restore(saved);
          return false;
        }
        Restore(WithId(Now(), rows[h].id, newID.value));
        assert Now() == Touched(saved, saved.rows[h].id);
      }
      return true;
    }

    method DeleteDraft(r: Resource, kept: bool) returns (ok: bool)
      requires BlobTable.Valid(Now())
      modifies this
      ensures BlobTable.Keeps(old(Now()), Now())
      ensures ok == BlobTable.DeleteDraft(old(Now()), r, kept).Some?
      ensures Now() == OrSame(BlobTable.DeleteDraft(old(Now()), r, kept), old(Now()))
      ensures (ok <==> r in old(drafts) && !kept) && if ok then DraftDeleted(old(Now()), Now(), r) else Now() == old(Now())
    {
      var saved := Now();
      DeletesDraft(saved, r, kept);
      SameKeeps(saved, "");
      if r !in drafts {
        return false;
      }
      DeleteDraftKeeps(saved, r);
      var id := drafts[r];
      Restore(WithoutDrafts(Now(), id));
      if kept {
        Restore(saved);
        return false;
      }
      rows := map h | h in rows && rows[h].id != id :: rows[h];
      return true;
    }

    /** Deletes the changes of an entity; nothing happens if it is not found, or if something that stays
        refers to it or to one of the changes. */
    method DeleteEntity(changes: Option<seq<Hash>>, kept: bool) returns (ok: bool)
      requires BlobTable.Valid(Now())
      modifies this
      ensures BlobTable.Keeps(old(Now()), Now())
      ensures ok == BlobTable.DeleteEntity(old(Now()), changes, kept).Some?
      ensures Now() == OrSame(BlobTable.DeleteEntity(old(Now()), changes, kept), old(Now()))
      ensures ok <==> changes.Some? && !kept
      ensures if ok then RowsGone(old(Now()), Now(), changes.value) else Now() == old(Now())
    {
      var saved := Now();
      SameKeeps(saved, "");
      if changes == None {
        return false;
      }
      var hs := changes.value;
      assert hs[..0] == [];
      for i := 0 to |hs|
        invariant Now() == DeleteMany(saved, hs[..i]) && BlobTable.Valid(Now())
      {
        assert hs[..i + 1][..i] == hs[..i];
        var _ := DeleteBlock(hs[i]);
      }
      assert hs[..|hs|] == hs;
      DeleteManyKeeps(saved, hs);
      DeletesMany(saved, hs);
      if kept {
        Restore(saved);
        return false;
      }
      return true;
    }

    method EmptyBlob(h: Hash)
      requires BlobTable.Valid(Now())
      modifies this
      ensures BlobTable.Keeps(old(Now()), Now())
      ensures Now() == Emptied(old(Now()), h) && DataGone(old(Now()), Now(), h)
    {
      BecomesKnown(Now(), h);
      EmptiedKeeps(Now(), h);
      Restore(Emptied(Now(), h));
    }

    method GetMaxBlobID() returns (max: nat)
      requires BlobTable.Valid(Now())
      ensures IsMaxId(Now(), max)
    {
      max := 0;
      var rest := rows.Keys;
      while rest != {}
        invariant rest <= rows.Keys
        invariant max == 0 || SomeRow(Now(), max)
        invariant forall h :: h in rows.Keys - rest ==> rows[h].id <= max
      {
        var h :| h in rest;
        if rows[h].id > max {
          max := rows[h].id;
          assert SomeRow(Now(), max) by {
            assert h in Now().rows && Now().rows[h].id == max;
          }
        }
        rest := rest - {h};
      }
    }

    /** The first statement of a listing call: where the listing starts, if there is one at all. */
    method StartListing(cursor: nat) returns (from: Option<nat>)
      requires BlobTable.Valid(Now())
      ensures exists max: nat :: IsMaxId(Now(), max) && from == StartOf(cursor, max)
      ensures from == None <==> IsMaxId(Now(), cursor)
      ensures from.Some? ==> from.value == if exists h :: h in rows && rows[h].id > cursor then cursor else 0
    {
      var maxid := GetMaxBlobID();
      from := if cursor == maxid then None else if cursor > maxid then Some(0) else Some(cursor);
      assert from == StartOf(cursor, maxid);
    }

    /** The second statement, on the table as it is by then. */
    method ListBlobs(from: nat) returns (items: seq<Item>)
      requires BlobTable.Valid(Now())
      ensures IsListing(Now(), from, items)
    {
      items := [];
      if last <= from {
        NothingAbove(Now(), from);
        return;
      }
      assert forall h :: h in rows ==> RowWell(Now(), h);
      for id := from + 1 to last + 1
        invariant Ascending(items) && forall i :: 0 <= i < |items| ==> ItemWell(Now(), from, items[i]) && items[i].id < id
        invariant forall h :: Listable(Now(), h) && from < rows[h].id < id ==> Item(rows[h].id, h) in items
      {
        if h :| h in rows && Listable(Now(), h) && rows[h].id == id {
          items := items + [Item(id, h)];
          assert ItemWell(Now(), from, Item(id, h));
        }
      }
    }
  }

  lemma {:induction false} NothingAbove(t: Table, from: nat)
    requires BlobTable.Valid(t) && t.last <= from
    ensures IsListing(t, from, [])
  {
    forall h | h in t.rows
      ensures t.rows[h].id <= from
    {
      assert RowWell(t, h);
    }
  }

  lemma {:induction false} NextIdKeeps(t: Table)
    requires BlobTable.Valid(t)
    ensures BlobTable.Keeps(t, t.(last := t.last + 1))
  {
    var t' := t.(last := t.last + 1);
    forall h | h in t'.rows
      ensures RowWell(t', h) && (Listable(t', h) ==> NewOrSame(t, t', h))
    {
      assert RowWell(t, h);
    }
    forall r | r in t'.drafts
      ensures SomeRow(t', t'.drafts[r])
    {
      StillSomeRow(t, t', t.drafts[r]);
    }
  }

  lemma {:induction false} OnlyKnownAfter(t: Table, h: Hash)
    ensures OnlyKnown(t, BlobTable.EnsureBlob(t, h), h)
  {
    var t' := BlobTable.EnsureBlob(t, h);
    assert t'.rows.Keys == t.rows.Keys + {h};
    forall g
      ensures Listable(t', g) <==> Listable(t, g)
    {
    }
  }

  lemma {:induction false} WithoutDraftsIsValid(t: Table, id: nat)
    requires BlobTable.Valid(t)
    ensures BlobTable.Valid(WithoutDrafts(t, id))
  {
    var t' := WithoutDrafts(t, id);
    assert forall h :: h in t'.rows ==> RowWell(t, h);
    forall r | r in t'.drafts
      ensures SomeRow(t', t'.drafts[r])
    {
      StillSomeRow(t, t', t.drafts[r]);
    }
  }

  /** With the new blob in place of the deleted one the table is valid. */
  lemma {:induction false} PlacedIsValid(t: Table, prev: Hash, b: Blob)
    requires BlobTable.Valid(t)
    ensures
      var placed := BlobTable.PutBlock(Deleted(t, prev), if prev in t.rows then t.rows[prev].id else 0, b.hash, b.size);
      placed.Some? ==> BlobTable.Valid(placed.value.table)
  {
    var t1, oldid := Deleted(t, prev), if prev in t.rows then t.rows[prev].id else 0;
    DeletedKeeps(t, prev);
    if b.hash in t1.rows || oldid == 0 {
      assert BlobTable.PutBlock(t1, oldid, b.hash, b.size) == BlobTable.PutBlock(t1, 0, b.hash, b.size);
      if BlobTable.PutBlock(t1, 0, b.hash, b.size).Some? {
        PutBlockKeeps(t1, b.hash, b.size);
      }
    } else {
      assert RowWell(t, prev);
      ReusedIdValid(t1, oldid, b);
    }
  }

  lemma {:induction false} DraftHasId(t: Table, r: Resource)
    requires BlobTable.Valid(t) && r in t.drafts
    ensures t.last > 0
  {
    assert SomeRow(t, t.drafts[r]);
    var h :| h in t.rows && t.rows[h].id == t.drafts[r];
    assert RowWell(t, h);
  }

  lemma {:induction false} ManyFails(t: Table, bs: seq<Blob>, n: nat)
    requires n <= |bs| && BlobTable.PutMany(t, bs[..n]) == None
    ensures BlobTable.PutMany(t, bs) == None
    decreases |bs|
  {
    if n < |bs| {
      var init := bs[..|bs| - 1];
      assert init[..n] == bs[..n];
      ManyFails(t, init, n);
    } else {
      assert bs[..n] == bs;
    }
  }
}

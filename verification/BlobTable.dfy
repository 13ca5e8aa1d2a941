/** The tables of blobs and drafts, and the transactions that change them
    (backend/hyper/blockstore.go, backend/hyper/hyper.go). Rows are found by hash: the column is unique. */
module BlobTable {
  import opened Options

  type Hash = string
  type Resource = string

  /** Size -1: the hash is known, the data is not. */
  datatype Row = Row(id: nat, size: int)

  /** `last` is the greatest id ever given out by the table's sequence. */
  datatype Table = Table(rows: map<Hash, Row>, drafts: map<Resource, nat>, last: nat)

  const EMPTY := Table(map[], map[], 0)

  /** A blob to store: what it links to, and whether it can be indexed. */
  datatype Blob = Blob(hash: Hash, size: nat, links: seq<Hash>, indexes: bool)

  predicate IsDraft(t: Table, id: nat)
  {
    exists r :: r in t.drafts && t.drafts[r] == id
  }

  /** Listed to other peers: the data is there, and it is no draft. */
  predicate Listable(t: Table, h: Hash)
  {
    h in t.rows && t.rows[h].size >= 0 && !IsDraft(t, t.rows[h].id)
  }

  ghost predicate RowWell(t: Table, h: Hash)
    requires h in t.rows
  {
    1 <= t.rows[h].id <= t.last && -1 <= t.rows[h].size
  }

  ghost predicate SomeRow(t: Table, id: nat)
  {
    exists h :: h in t.rows && t.rows[h].id == id
  }

  /** Ids are unique and were given out by the sequence, and drafts are blobs. */
  ghost predicate Valid(t: Table)
  {
    && (forall h :: h in t.rows ==> RowWell(t, h))
    && (forall g, h :: g in t.rows && h in t.rows && t.rows[g].id == t.rows[h].id ==> g == h)
    && (forall r :: r in t.drafts ==> SomeRow(t, t.drafts[r]))
  }

  // ---- Statements ----

  /** `UPDATE blobs SET id = ... WHERE id = ...`; drafts refer to ids without following updates. */
  function WithId(t: Table, from: nat, to: nat): Table
  {
    t.(rows := map h | h in t.rows :: if t.rows[h].id == from then t.rows[h].(id := to) else t.rows[h])
  }

  /** A row moved to the next id of the sequence. */
  function Touched(t: Table, id: nat): Table
  {
    WithId(t, id, t.last + 1).(last := t.last + 1)
  }

  function WithoutDrafts(t: Table, id: nat): Table
  {
    t.(drafts := map r | r in t.drafts && t.drafts[r] != id :: t.drafts[r])
  }

  /** `DELETE FROM blobs`, with the drafts that refer to the row. */
  function Deleted(t: Table, h: Hash): Table
  {
    if h in t.rows then WithoutDrafts(t.(rows := t.rows - {h}), t.rows[h].id) else t
  }

  /** `INSERT INTO blobs` with an id of its own, or with the next one of the sequence. */
  function Inserted(t: Table, inID: nat, h: Hash, size: int): Table
  {
    var id := if inID == 0 then t.last + 1 else inID;
    Table(t.rows[h := Row(id, size)], t.drafts, if id > t.last then id else t.last)
  }

  function IdAfterInsert(t: Table, inID: nat): nat
  {
    if inID == 0 then t.last + 1 else inID
  }

  // ---- What the parts of transactions do ----

  datatype Placed = Placed(table: Table, id: nat, found: bool)

  /** A blob that is there already keeps its id; one that was only known gets a new one. */
  function PutBlock(t: Table, inID: nat, h: Hash, size: nat): Option<Placed>
  {
    if h in t.rows && t.rows[h].size >= 0 then Some(Placed(t, t.rows[h].id, true))
    else if h in t.rows then
      if IsDraft(t, t.rows[h].id) then None
      else Some(Placed(Table(t.rows[h := Row(t.last + 1, size)], t.drafts, t.last + 1), t.last + 1, false))
    else Some(Placed(Inserted(t, inID, h, size), IdAfterInsert(t, inID), false))
  }

  function EnsureBlob(t: Table, h: Hash): Table
  {
    if h in t.rows then t else Inserted(t, 0, h, -1)
  }

  function EnsureBlobs(t: Table, hs: seq<Hash>): Table
  {
    if hs == [] then t else EnsureBlob(EnsureBlobs(t, hs[..|hs| - 1]), hs[|hs| - 1])
  }

  function SaveBlob(t: Table, b: Blob): Option<Placed>
  {
    match PutBlock(t, 0, b.hash, b.size)
    case None => None
    case Some(p) =>
      if p.found then Some(p)
      else if !b.indexes then None
      else Some(p.(table := EnsureBlobs(p.table, b.links)))
  }

  function InsertDraft(t: Table, r: Resource, id: nat): Option<Table>
  {
    if r in t.drafts then None else Some(t.(drafts := t.drafts[r := id]))
  }

  // ---- Transactions: nothing when they are rolled back ----

  function Put(t: Table, b: Blob): Option<Table>
  {
    match SaveBlob(t, b)
    case None => None
    case Some(p) => Some(p.table)
  }

  function PutMany(t: Table, bs: seq<Blob>): Option<Table>
  {
    if bs == [] then Some(t)
    else
      match PutMany(t, bs[..|bs| - 1])
      case None => None
      case Some(t') => Put(t', bs[|bs| - 1])
  }

  function SaveDraft(t: Table, r: Resource, b: Blob): Option<Table>
  {
    match SaveBlob(t, b)
    case None => None
    case Some(p) => InsertDraft(p.table, r, p.id)
  }

  /** The new draft takes the id of the old one. Nothing is done if a foreign key keeps the old one. */
  function ReplaceDraft(t: Table, r: Resource, prev: Hash, b: Blob, kept: bool): Option<Table>
  {
    if kept && prev in t.rows then None else Replaced(t, r, prev, b)
  }

  function Replaced(t: Table, r: Resource, prev: Hash, b: Blob): Option<Table>
  {
    var oldid := if prev in t.rows then t.rows[prev].id else 0;
    match PutBlock(Deleted(t, prev), oldid, b.hash, b.size)
    case None => None
    case Some(p) =>
      if p.found then Some(p.table)
      else if !b.indexes then None
      else InsertDraft(EnsureBlobs(p.table, b.links), r, p.id)
  }

  function PublishDraft(t: Table, r: Resource): Option<Table>
  {
    if r !in t.drafts then None
    else Some(Touched(WithoutDrafts(t, t.drafts[r]), t.drafts[r]))
  }

  /** Publishing again a blob that is a draft breaks the reference of the draft; a blob that is not
      there only costs an id. */
  function PublishBlob(t: Table, h: Hash): Option<Table>
  {
    if t.last == 0 then None
    else if h in t.rows && t.rows[h].size >= 0 then
      if IsDraft(t, t.rows[h].id) then None
      else Some(Touched(t, t.rows[h].id))
    else Some(t.(last := t.last + 1))
  }

  /** Nothing is deleted if a foreign key keeps the blob. */
  function DeleteDraft(t: Table, r: Resource, kept: bool): Option<Table>
  {
    if r !in t.drafts || kept then None
    else
      var t' := WithoutDrafts(t, t.drafts[r]);
      Some(t'.(rows := map h | h in t'.rows && t'.rows[h].id != t.drafts[r] :: t'.rows[h]))
  }

  function DeleteMany(t: Table, hs: seq<Hash>): Table
  {
    if hs == [] then t else Deleted(DeleteMany(t, hs[..|hs| - 1]), hs[|hs| - 1])
  }

  /** Deletes the changes of an entity, if it is found and no foreign key keeps one of them. */
  function DeleteEntity(t: Table, changes: Option<seq<Hash>>, kept: bool): Option<Table>
  {
    if changes == None || kept then None else Some(DeleteMany(t, changes.value))
  }

  /** Keeps the row but not the data. */
  function Emptied(t: Table, h: Hash): Table
  {
    if h in t.rows then t.(rows := t.rows[h := t.rows[h].(size := -1)]) else t
  }

  // ---- What every transaction keeps ----

  /** From one table to a later one nothing becomes listable at an id given out before. */
  ghost predicate NothingOldAppears(t: Table, t': Table)
  {
    t.last <= t'.last && forall h :: Listable(t', h) ==> NewOrSame(t, t', h)
  }

  predicate NewOrSame(t: Table, t': Table, h: Hash)
    requires h in t'.rows
  {
    t'.rows[h].id > t.last || (Listable(t, h) && t.rows[h].id == t'.rows[h].id)
  }

  /** Drafts of the first are drafts of the second. */
  lemma {:induction false} KeptDrafts(t: Table, t': Table, id: nat)
    requires forall r :: r in t.drafts && t.drafts[r] == id ==> r in t'.drafts && t'.drafts[r] == id
    ensures IsDraft(t, id) ==> IsDraft(t', id)
  {
  }

  ghost predicate Keeps(t: Table, t': Table)
  {
    Valid(t') && NothingOldAppears(t, t')
  }

  lemma {:induction false} StillSomeRow(t: Table, t': Table, id: nat)
    requires SomeRow(t, id)
    requires forall h :: h in t.rows && t.rows[h].id == id ==> h in t'.rows && t'.rows[h].id == id
    ensures SomeRow(t', id)
  {
  }

  lemma {:induction false} InsertedKeeps(t: Table, h: Hash, size: int)
    requires Valid(t) && h !in t.rows && -1 <= size
    ensures Keeps(t, Inserted(t, 0, h, size)) && SomeRow(Inserted(t, 0, h, size), t.last + 1)
  {
    NewRowKeeps(t, h, size);
    assert Inserted(t, 0, h, size) == Table(t.rows[h := Row(t.last + 1, size)], t.drafts, t.last + 1);
  }

  /** Giving a row that is no draft, or a new row, the next id. */
  lemma {:induction false} NewRowKeeps(t: Table, h: Hash, size: int)
    requires Valid(t) && -1 <= size && (h in t.rows ==> !IsDraft(t, t.rows[h].id))
    ensures
      var t' := Table(t.rows[h := Row(t.last + 1, size)], t.drafts, t.last + 1);
      Keeps(t, t') && SomeRow(t', t.last + 1)
  {
    var t' := Table(t.rows[h := Row(t.last + 1, size)], t.drafts, t.last + 1);
    forall g | g in t'.rows
      ensures RowWell(t', g) && (g != h ==> t'.rows[g].id <= t.last)
    {
      assert g != h ==> RowWell(t, g);
    }
    forall r | r in t'.drafts
      ensures SomeRow(t', t'.drafts[r])
    {
      StillSomeRow(t, t', t.drafts[r]);
    }
    forall g | Listable(t', g)
      ensures NewOrSame(t, t', g)
    {
      if g != h {
        KeptDrafts(t, t', t.rows[g].id);
      }
    }
    assert t'.rows[h].id == t.last + 1;
  }

  lemma {:induction false} PutBlockKeeps(t: Table, h: Hash, size: nat)
    requires Valid(t) && PutBlock(t, 0, h, size).Some?
    ensures Keeps(t, PutBlock(t, 0, h, size).value.table)
    ensures SomeRow(PutBlock(t, 0, h, size).value.table, PutBlock(t, 0, h, size).value.id)
  {
    if h in t.rows && t.rows[h].size >= 0 {
      SameKeeps(t, h);
    } else {
      NewRowKeeps(t, h, size);
      assert PutBlock(t, 0, h, size).value ==
             Placed(Table(t.rows[h := Row(t.last + 1, size)], t.drafts, t.last + 1), t.last + 1, false);
    }
  }

  lemma {:induction false} SameKeeps(t: Table, h: Hash)
    requires Valid(t)
    ensures Keeps(t, t) && (h in t.rows ==> SomeRow(t, t.rows[h].id))
  {
    assert forall g :: Listable(t, g) ==> NewOrSame(t, t, g);
  }

  lemma {:induction false} EnsureBlobKeeps(t: Table, h: Hash, id: nat)
    requires Valid(t)
    ensures Keeps(t, EnsureBlob(t, h)) && (SomeRow(t, id) ==> SomeRow(EnsureBlob(t, h), id))
    ensures forall r :: r in EnsureBlob(t, h).drafts <==> r in t.drafts
  {
    if h !in t.rows {
      InsertedKeeps(t, h, -1);
      if SomeRow(t, id) {
        StillSomeRow(t, EnsureBlob(t, h), id);
      }
    }
  }

  lemma {:induction false} EnsureBlobsKeeps(t: Table, hs: seq<Hash>, id: nat)
    requires Valid(t)
    ensures Keeps(t, EnsureBlobs(t, hs)) && (SomeRow(t, id) ==> SomeRow(EnsureBlobs(t, hs), id))
  {
    if hs != [] {
      var t' := EnsureBlobs(t, hs[..|hs| - 1]);
      EnsureBlobsKeeps(t, hs[..|hs| - 1], id);
      EnsureBlobKeeps(t', hs[|hs| - 1], id);
    }
  }

  lemma {:induction false} SaveBlobKeeps(t: Table, b: Blob)
    requires Valid(t) && SaveBlob(t, b).Some?
    ensures Keeps(t, SaveBlob(t, b).value.table) && SomeRow(SaveBlob(t, b).value.table, SaveBlob(t, b).value.id)
  {
    var p := PutBlock(t, 0, b.hash, b.size).value;
    PutBlockKeeps(t, b.hash, b.size);
    if !p.found {
      EnsureBlobsKeeps(p.table, b.links, p.id);
    }
  }

  lemma {:induction false} PutManyKeeps(t: Table, bs: seq<Blob>)
    requires Valid(t) && PutMany(t, bs).Some?
    ensures Keeps(t, PutMany(t, bs).value)
  {
    if bs != [] {
      var t' := PutMany(t, bs[..|bs| - 1]).value;
      PutManyKeeps(t, bs[..|bs| - 1]);
      SaveBlobKeeps(t', bs[|bs| - 1]);
    }
  }

  lemma {:induction false} InsertDraftKeeps(t: Table, r: Resource, id: nat)
    requires Valid(t) && SomeRow(t, id) && InsertDraft(t, r, id).Some?
    ensures Keeps(t, InsertDraft(t, r, id).value)
  {
    var t' := InsertDraft(t, r, id).value;
    forall q | q in t'.drafts
      ensures SomeRow(t', t'.drafts[q])
    {
      if q != r {
        StillSomeRow(t, t', t.drafts[q]);
      } else {
        StillSomeRow(t, t', id);
      }
    }
    assert forall g :: g in t'.rows ==> RowWell(t, g);
    forall g | Listable(t', g)
      ensures NewOrSame(t, t', g)
    {
      KeptDrafts(t, t', t.rows[g].id);
    }
  }

  lemma {:induction false} SaveDraftKeeps(t: Table, r: Resource, b: Blob)
    requires Valid(t) && SaveDraft(t, r, b).Some?
    ensures Keeps(t, SaveDraft(t, r, b).value)
  {
    var p := SaveBlob(t, b).value;
    SaveBlobKeeps(t, b);
    InsertDraftKeeps(p.table, r, p.id);
  }

  lemma {:induction false} DeletedKeeps(t: Table, h: Hash)
    requires Valid(t)
    ensures Keeps(t, Deleted(t, h))
    ensures h in t.rows ==> !IsDraft(Deleted(t, h), t.rows[h].id) && !SomeRow(Deleted(t, h), t.rows[h].id)
  {
    var t' := Deleted(t, h);
    if h in t.rows {
      assert forall g :: g in t'.rows ==> RowWell(t, g);
      forall r | r in t'.drafts
        ensures SomeRow(t', t'.drafts[r])
      {
        assert SomeRow(t, t.drafts[r]);
        StillSomeRow(t, t', t.drafts[r]);
      }
      forall g | Listable(t', g)
        ensures NewOrSame(t, t', g)
      {
        KeptDrafts(t, t', t.rows[g].id);
      }
    }
  }

  lemma {:induction false} DeleteManyKeeps(t: Table, hs: seq<Hash>)
    requires Valid(t)
    ensures Keeps(t, DeleteMany(t, hs))
  {
    if hs != [] {
      var t' := DeleteMany(t, hs[..|hs| - 1]);
      DeleteManyKeeps(t, hs[..|hs| - 1]);
      DeletedKeeps(t', hs[|hs| - 1]);
    }
  }

  lemma {:induction false} EmptiedKeeps(t: Table, h: Hash)
    requires Valid(t)
    ensures Keeps(t, Emptied(t, h))
  {
    var t' := Emptied(t, h);
    forall g | g in t'.rows
      ensures RowWell(t', g)
    {
      assert RowWell(t, g);
    }
    forall r | r in t'.drafts
      ensures SomeRow(t', t'.drafts[r])
    {
      StillSomeRow(t, t', t.drafts[r]);
    }
    forall g | Listable(t', g)
      ensures NewOrSame(t, t', g)
    {
      KeptDrafts(t, t', t.rows[g].id);
    }
  }

  /** A row without drafts, given the next id. */
  lemma {:induction false} TouchKeeps(t: Table, id: nat)
    requires Valid(t) && SomeRow(t, id)
    ensures Keeps(t, Touched(WithoutDrafts(t, id), id))
  {
    var t' := Touched(WithoutDrafts(t, id), id);
    assert forall g :: g in t'.rows ==>
      RowWell(t, g) && t'.rows[g].id == (if t.rows[g].id == id then t.last + 1 else t.rows[g].id);
    assert forall g :: g in t'.rows ==> RowWell(t', g);
    forall r | r in t'.drafts
      ensures SomeRow(t', t'.drafts[r])
    {
      assert SomeRow(t, t.drafts[r]);
      StillSomeRow(t, t', t.drafts[r]);
    }
    forall g | Listable(t', g)
      ensures NewOrSame(t, t', g)
    {
      if t.rows[g].id != id {
        KeptDrafts(t, t', t.rows[g].id);
      }
    }
  }

  lemma {:induction false} PublishDraftKeeps(t: Table, r: Resource)
    requires Valid(t) && PublishDraft(t, r).Some?
    ensures Keeps(t, PublishDraft(t, r).value)
  {
    TouchKeeps(t, t.drafts[r]);
  }

  lemma {:induction false} NoDraftsToRemove(t: Table, id: nat)
    requires !IsDraft(t, id)
    ensures WithoutDrafts(t, id) == t
  {
    assert forall r :: r in t.drafts ==> t.drafts[r] != id;
    assert WithoutDrafts(t, id).drafts == t.drafts;
  }

  lemma {:induction false} TouchPlainKeeps(t: Table, h: Hash)
    requires Valid(t) && h in t.rows && !IsDraft(t, t.rows[h].id)
    ensures Keeps(t, Touched(t, t.rows[h].id))
  {
    assert SomeRow(t, t.rows[h].id);
    NoDraftsToRemove(t, t.rows[h].id);
    TouchKeeps(t, t.rows[h].id);
  }

  lemma {:induction false} PublishBlobKeeps(t: Table, h: Hash)
    requires Valid(t) && PublishBlob(t, h).Some?
    ensures Keeps(t, PublishBlob(t, h).value)
  {
    if h in t.rows && t.rows[h].size >= 0 {
      TouchPlainKeeps(t, h);
    }
  }

  lemma {:induction false} DeleteDraftKeeps(t: Table, r: Resource)
    requires Valid(t) && DeleteDraft(t, r, false).Some?
    ensures Keeps(t, DeleteDraft(t, r, false).value)
  {
    var id, t' := t.drafts[r], DeleteDraft(t, r, false).value;
    assert forall g :: g in t'.rows ==> RowWell(t, g) && t.rows[g].id != id;
    forall q | q in t'.drafts
      ensures SomeRow(t', t'.drafts[q])
    {
      assert SomeRow(t, t.drafts[q]);
      StillSomeRow(t, t', t.drafts[q]);
    }
    forall g | Listable(t', g)
      ensures NewOrSame(t, t', g)
    {
      KeptDrafts(t, t', t.rows[g].id);
    }
  }

  /** A row put at the id of a deleted one is hidden by its draft. */
  lemma {:induction false} ReplaceDraftKeeps(t: Table, r: Resource, prev: Hash, b: Blob)
    requires Valid(t) && Replaced(t, r, prev, b).Some?
    ensures Keeps(t, Replaced(t, r, prev, b).value)
  {
    var t1 := Deleted(t, prev);
    var oldid := if prev in t.rows then t.rows[prev].id else 0;
    DeletedKeeps(t, prev);
    if b.hash in t1.rows || oldid == 0 {
      assert PutBlock(t1, oldid, b.hash, b.size) == PutBlock(t1, 0, b.hash, b.size);
      NewDraftKeeps(t1, r, b);
    } else {
      assert RowWell(t, prev);
      ReusedIdKeeps(t1, r, oldid, b);
    }
  }

  /** The new draft at an id of its own, or found. */
  lemma {:induction false} NewDraftKeeps(t: Table, r: Resource, b: Blob)
    requires Valid(t) && PutBlock(t, 0, b.hash, b.size).Some?
    ensures Keeps(t, PutBlock(t, 0, b.hash, b.size).value.table)
    ensures
      var p := PutBlock(t, 0, b.hash, b.size).value;
      var drafted := InsertDraft(EnsureBlobs(p.table, b.links), r, p.id);
      drafted.Some? ==> Keeps(t, drafted.value)
  {
    var p := PutBlock(t, 0, b.hash, b.size).value;
    PutBlockKeeps(t, b.hash, b.size);
    EnsureBlobsKeeps(p.table, b.links, p.id);
    if r !in EnsureBlobs(p.table, b.links).drafts {
      InsertDraftKeeps(EnsureBlobs(p.table, b.links), r, p.id);
    }
  }

  lemma {:induction false} ReusedIdKeeps(t: Table, r: Resource, id: nat, b: Blob)
    requires Valid(t) && 1 <= id <= t.last && !SomeRow(t, id) && b.hash !in t.rows
    requires r !in EnsureBlobs(Inserted(t, id, b.hash, b.size), b.links).drafts
    ensures Keeps(t, InsertDraft(EnsureBlobs(Inserted(t, id, b.hash, b.size), b.links), r, id).value)
  {
    var t1 := Inserted(t, id, b.hash, b.size);
    ReusedIdValid(t, id, b);
    EnsureBlobsKeeps(t1, b.links, id);
    var t2 := EnsureBlobs(t1, b.links);
    InsertDraftKeeps(t2, r, id);
    var t3 := InsertDraft(t2, r, id).value;
    forall g | Listable(t3, g)
      ensures NewOrSame(t, t3, g)
    {
      assert NewOrSame(t1, t3, g);
      assert r in t3.drafts && t3.drafts[r] == id && IsDraft(t3, id);
      if t3.rows[g].id <= t.last {
        assert g != b.hash;
        KeptDrafts(t, t1, t.rows[g].id);
      }
    }
  }

  lemma {:induction false} ReusedIdValid(t: Table, id: nat, b: Blob)
    requires Valid(t) && 1 <= id <= t.last && !SomeRow(t, id) && b.hash !in t.rows
    ensures Valid(Inserted(t, id, b.hash, b.size)) && SomeRow(Inserted(t, id, b.hash, b.size), id)
  {
    var t1 := Inserted(t, id, b.hash, b.size);
    forall g | g in t1.rows
      ensures RowWell(t1, g) && (g != b.hash ==> t1.rows[g].id != id)
    {
      assert g != b.hash ==> RowWell(t, g);
    }
    forall q | q in t1.drafts
      ensures SomeRow(t1, t1.drafts[q])
    {
      StillSomeRow(t, t1, t.drafts[q]);
    }
    assert t1.rows[b.hash].id == id;
  }
}

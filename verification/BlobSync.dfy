/** Peers that follow the blobs of a store by cursor, while the store changes
    (backend/mttnet/list_blobs.go, backend/hyper/hyper.go). */
module BlobSync {
  import opened Options
  import opened BlobTable
  import opened BlobStore

  datatype Operation =
    | DoPut(blob: Blob)
    | DoPutMany(blobs: seq<Blob>)
    | DoEnsure(hash: Hash)
    | DoSaveDraft(resource: Resource, blob: Blob)
    | DoReplaceDraft(resource: Resource, prev: Hash, blob: Blob, kept: bool)
    | DoPublishDraft(resource: Resource)
    | DoPublishBlob(hash: Hash)
    | DoDeleteDraft(resource: Resource, kept: bool)
    | DoDelete(changes: Option<seq<Hash>>, kept: bool)
    | DoEmpty(hash: Hash)

  function Outcome(t: Table, op: Operation): Option<Table>
  {
    match op
    case DoPut(b) => Put(t, b)
    case DoPutMany(bs) => PutMany(t, bs)
    case DoEnsure(h) => Some(EnsureBlob(t, h))
    case DoSaveDraft(r, b) => SaveDraft(t, r, b)
    case DoReplaceDraft(r, prev, b, kept) => ReplaceDraft(t, r, prev, b, kept)
    case DoPublishDraft(r) => PublishDraft(t, r)
    case DoPublishBlob(h) => PublishBlob(t, h)
    case DoDeleteDraft(r, kept) => DeleteDraft(t, r, kept)
    case DoDelete(changes, kept) => DeleteEntity(t, changes, kept)
    case DoEmpty(h) => Some(Emptied(t, h))
  }

  function Perform(t: Table, op: Operation): Table
  {
    OrSame(Outcome(t, op), t)
  }

  /** No transaction, kept or rolled back, makes a blob listable at an id given out before. */
  lemma {:induction false} OperationKeeps(t: Table, op: Operation)
    requires Valid(t)
    ensures Keeps(t, Perform(t, op))
  {
    if Outcome(t, op).Some? {
      match op
      case DoPut(b) => SaveBlobKeeps(t, b);
      case DoPutMany(bs) => PutManyKeeps(t, bs);
      case DoEnsure(h) => EnsureBlobKeeps(t, h, 0);
      case DoSaveDraft(r, b) => SaveDraftKeeps(t, r, b);
      case DoReplaceDraft(r, prev, b, _) => ReplaceDraftKeeps(t, r, prev, b);
      case DoPublishDraft(r) => PublishDraftKeeps(t, r);
      case DoPublishBlob(h) => PublishBlobKeeps(t, h);
      case DoDeleteDraft(r, _) => DeleteDraftKeeps(t, r);
      case DoDelete(changes, _) => DeleteManyKeeps(t, changes.value);
      case DoEmpty(h) => EmptiedKeeps(t, h);
    }
  }

  // ---- Peers ----

  /** A listing call: none, one that has read the greatest id and is to list what is above `from`, or one
      whose listing is on its way, taken from the table as it was when ids up to `upTo` were given out. */
  datatype Listing = Idle | Asked(from: nat) | Stream(from: nat, upTo: nat, rest: seq<Item>)

  /** A peer: the cursor received last, all blobs sent to it, and its listing call. */
  datatype Peer = Peer(cursor: nat, sent: set<Hash>, listing: Listing)

  const NEW_PEER := Peer(0, {}, Idle)

  datatype World = World(table: Table, peers: map<string, Peer>)

  const START := World(EMPTY, map[])

  datatype Step =
    | Server(op: Operation)
    | Ask(who: string, max: nat)
    | List(who: string, items: seq<Item>)
    | Receive(who: string)
    | HangUp(who: string)

  function PeerOf(w: World, who: string): Peer
  {
    if who in w.peers then w.peers[who] else NEW_PEER
  }

  /** A peer asks with its cursor, the listing is taken, and the peer receives its items one by one. */
  ghost predicate Can(w: World, s: Step)
  {
    match s
    case Server(_) => true
    case Ask(_, max) => IsMaxId(w.table, max)
    case List(who, items) => PeerOf(w, who).listing.Asked? && IsListing(w.table, PeerOf(w, who).listing.from, items)
    case Receive(who) => PeerOf(w, who).listing.Stream? && PeerOf(w, who).listing.rest != []
    case HangUp(_) => true
  }

  /** The call ends at once for a cursor that is the greatest id. */
  function Started(t: Table, p: Peer, max: nat): Peer
  {
    p.(listing := match StartOf(p.cursor, max) case None => Stream(p.cursor, t.last, []) case Some(from) => Asked(from))
  }

  function Listed(t: Table, p: Peer, items: seq<Item>): Peer
    requires p.listing.Asked?
  {
    p.(listing := Stream(p.listing.from, t.last, items))
  }

  function Received(p: Peer): Peer
    requires p.listing.Stream? && p.listing.rest != []
  {
    var st := p.listing;
    Peer(st.rest[0].id, p.sent + {st.rest[0].hash}, Stream(st.rest[0].id, st.upTo, st.rest[1..]))
  }

  ghost function Next(w: World, s: Step): World
    requires Can(w, s)
  {
    match s
    case Server(op) => w.(table := Perform(w.table, op))
    case Ask(who, max) => w.(peers := w.peers[who := Started(w.table, PeerOf(w, who), max)])
    case List(who, items) => w.(peers := w.peers[who := Listed(w.table, PeerOf(w, who), items)])
    case Receive(who) => w.(peers := w.peers[who := Received(PeerOf(w, who))])
    case HangUp(who) => w.(peers := w.peers[who := PeerOf(w, who).(listing := Idle)])
  }

  ghost predicate CanAll(w: World, steps: seq<Step>)
    decreases |steps|
  {
    steps == [] || (Can(w, steps[0]) && CanAll(Next(w, steps[0]), steps[1..]))
  }

  ghost function RunOf(w: World, steps: seq<Step>): World
    requires CanAll(w, steps)
    decreases |steps|
  {
    if steps == [] then w else RunOf(Next(w, steps[0]), steps[1..])
  }

  // ---- What peers can rely on ----

  /** Every listable blob up to the cursor was sent. */
  ghost predicate NothingMissed(t: Table, p: Peer)
  {
    forall h :: Listable(t, h) && t.rows[h].id <= p.cursor ==> h in p.sent
  }

  /** What is listable of a listing was sent before, or is still on its way. */
  ghost predicate Streaming(t: Table, p: Peer, st: Listing)
    requires st.Stream?
  {
    && st.upTo <= t.last && Ascending(st.rest)
    && (forall i :: 0 <= i < |st.rest| ==> st.from < st.rest[i].id <= st.upTo)
    && (forall h :: Listable(t, h) && t.rows[h].id <= st.upTo ==> OnItsWay(t, p, st, h))
  }

  predicate OnItsWay(t: Table, p: Peer, st: Listing, h: Hash)
    requires h in t.rows && st.Stream?
  {
    if t.rows[h].id <= st.from then h in p.sent else Item(t.rows[h].id, h) in st.rest
  }

  ghost predicate PeerSafe(t: Table, p: Peer)
  {
    && p.cursor <= t.last && NothingMissed(t, p)
    && (p.listing.Asked? ==> p.listing.from <= p.cursor)
    && (p.listing.Stream? ==> Streaming(t, p, p.listing))
  }

  ghost predicate Safe(w: World)
  {
    Valid(w.table) && forall who :: who in w.peers ==> PeerSafe(w.table, w.peers[who])
  }

  lemma {:induction false} IdsAreGiven(t: Table, h: Hash)
    requires Valid(t) && h in t.rows
    ensures t.rows[h].id <= t.last
  {
    assert RowWell(t, h);
  }

  lemma {:induction false} NewPeerIsSafe(t: Table)
    requires Valid(t)
    ensures PeerSafe(t, NEW_PEER)
  {
    forall h | h in t.rows
      ensures t.rows[h].id >= 1
    {
      assert RowWell(t, h);
    }
  }

  lemma {:induction false} OperationIsSafe(t: Table, t': Table, p: Peer)
    requires PeerSafe(t, p) && NothingOldAppears(t, t')
    ensures PeerSafe(t', p)
  {
    forall h | Listable(t', h) && t'.rows[h].id <= p.cursor
      ensures h in p.sent
    {
      assert NewOrSame(t, t', h);
    }
    if p.listing.Stream? {
      var st := p.listing;
      forall h | Listable(t', h) && t'.rows[h].id <= st.upTo
        ensures OnItsWay(t', p, st, h)
      {
        assert NewOrSame(t, t', h);
        assert OnItsWay(t, p, st, h);
      }
    }
  }

  /** Whatever the cursor, the call starts at or below it. */
  lemma {:induction false} AskIsSafe(t: Table, p: Peer, max: nat)
    requires PeerSafe(t, p) && IsMaxId(t, max)
    ensures PeerSafe(t, Started(t, p, max))
  {
    if p.cursor == max {
      forall h | Listable(t, h)
        ensures h in p.sent
      {
        assert t.rows[h].id <= max;
      }
    }
  }

  /** The listing may be taken from a later table than the greatest id. */
  lemma {:induction false} ListIsSafe(t: Table, p: Peer, items: seq<Item>)
    requires Valid(t) && PeerSafe(t, p) && p.listing.Asked? && IsListing(t, p.listing.from, items)
    ensures PeerSafe(t, Listed(t, p, items))
  {
    forall i | 0 <= i < |items|
      ensures p.listing.from < items[i].id <= t.last
    {
      assert ItemWell(t, p.listing.from, items[i]);
      IdsAreGiven(t, items[i].hash);
    }
  }

  lemma {:induction false} ReceiveIsSafe(t: Table, p: Peer)
    requires PeerSafe(t, p) && p.listing.Stream? && p.listing.rest != []
    ensures PeerSafe(t, Received(p))
  {
    var st, p' := p.listing, Received(p);
    var st' := p'.listing;
    forall h | Listable(t, h) && t.rows[h].id <= st.upTo
      ensures OnItsWay(t, p', st', h)
    {
      assert OnItsWay(t, p, st, h);
      if t.rows[h].id > st.from {
        var j :| 0 <= j < |st.rest| && st.rest[j] == Item(t.rows[h].id, h);
        if j > 0 {
          assert st'.rest[j - 1] == st.rest[j];
        }
      }
    }
    forall h | Listable(t, h) && t.rows[h].id <= p'.cursor
      ensures h in p'.sent
    {
      assert OnItsWay(t, p', st', h);
    }
  }

  lemma {:induction false} StepIsSafe(w: World, s: Step)
    requires Safe(w) && Can(w, s)
    ensures Safe(Next(w, s))
  {
    match s
    case Server(op) =>
      OperationKeeps(w.table, op);
      forall who | who in w.peers
        ensures PeerSafe(Perform(w.table, op), w.peers[who])
      {
        OperationIsSafe(w.table, Perform(w.table, op), w.peers[who]);
      }
    case Ask(who, max) =>
      NewPeerIsSafe(w.table);
      AskIsSafe(w.table, PeerOf(w, who), max);
    case List(who, items) =>
      ListIsSafe(w.table, PeerOf(w, who), items);
    case Receive(who) =>
      ReceiveIsSafe(w.table, PeerOf(w, who));
    case HangUp(who) =>
      NewPeerIsSafe(w.table);
  }

  lemma {:induction false} RunIsSafe(w: World, steps: seq<Step>)
    requires Safe(w) && CanAll(w, steps)
    ensures Safe(RunOf(w, steps))
    decreases |steps|
  {
    if steps != [] {
      StepIsSafe(w, steps[0]);
      RunIsSafe(Next(w, steps[0]), steps[1..]);
    }
  }

  /** Whatever happens to the store, and however its listings are interrupted: a peer was sent every
      listable blob with an id up to the cursor it received last. */
  lemma {:induction false} NoPeerMissesABlob(steps: seq<Step>, who: string, h: Hash)
    requires CanAll(START, steps)
    requires
      var w := RunOf(START, steps);
      who in w.peers && Listable(w.table, h) && w.table.rows[h].id <= w.peers[who].cursor
    ensures h in RunOf(START, steps).peers[who].sent
  {
    RunIsSafe(START, steps);
    var w := RunOf(START, steps);
    assert PeerSafe(w.table, w.peers[who]);
  }

  /** A listing read to its end leaves nothing behind: all that is listable up to the ids given out
      when it was taken was sent. */
  lemma {:induction false} WholeListingIsComplete(steps: seq<Step>, who: string, h: Hash)
    requires CanAll(START, steps)
    requires
      var w := RunOf(START, steps);
      && who in w.peers && w.peers[who].listing.Stream? && w.peers[who].listing.rest == []
      && Listable(w.table, h) && w.table.rows[h].id <= w.peers[who].listing.upTo
    ensures h in RunOf(START, steps).peers[who].sent
  {
    RunIsSafe(START, steps);
    var w := RunOf(START, steps);
    assert PeerSafe(w.table, w.peers[who]);
    assert OnItsWay(w.table, w.peers[who], w.peers[who].listing, h);
  }

  // ---- Catching up ----

  ghost function Hashes(items: seq<Item>): set<Hash>
  {
    set i | 0 <= i < |items| :: items[i].hash
  }

  function Receives(who: string, n: nat): seq<Step>
  {
    if n == 0 then [] else [Receive(who)] + Receives(who, n - 1)
  }

  lemma {:induction false} ReceivesFirst(who: string, n: nat)
    requires n > 0
    ensures Receives(who, n)[0] == Receive(who) && Receives(who, n)[1..] == Receives(who, n - 1)
  {
  }

  /** A peer that receives its listing to the end has got all of it, and its cursor is at the last item. */
  lemma {:induction false} ReceivesAll(w: World, who: string)
    requires who in w.peers && w.peers[who].listing.Stream?
    ensures
      var p := w.peers[who];
      var steps := Receives(who, |p.listing.rest|);
      && CanAll(w, steps) && RunOf(w, steps).table == w.table && who in RunOf(w, steps).peers
      && var p' := RunOf(w, steps).peers[who];
         && p'.sent == p.sent + Hashes(p.listing.rest)
         && p'.cursor == if p.listing.rest == [] then p.cursor else p.listing.rest[|p.listing.rest| - 1].id
    decreases |w.peers[who].listing.rest|
  {
    var p := w.peers[who];
    var rest := p.listing.rest;
    if rest == [] {
      assert p.sent + Hashes(rest) == p.sent;
    } else {
      var w' := Next(w, Receive(who));
      ReceivesFirst(who, |rest|);
      ReceivesAll(w', who);
      assert Hashes(rest) == {rest[0].hash} + Hashes(rest[1..]) by {
        assert forall i :: 1 <= i < |rest| ==> rest[i] == rest[1..][i - 1];
        assert rest == [rest[0]] + rest[1..];
      }
    }
  }

  /** The call a peer makes: it asks, gets the listing if there is one for it, and receives it to its end. */
  ghost function Call(t: Table, p: Peer, who: string, max: nat, items: seq<Item>): seq<Step>
  {
    if p.cursor == max then [Ask(who, max)] else [Ask(who, max), List(who, items)] + Receives(who, |items|)
  }

  lemma {:induction false} TwoFirst(w: World, a: Step, b: Step, rest: seq<Step>)
    requires Can(w, a) && Can(Next(w, a), b) && CanAll(Next(Next(w, a), b), rest)
    ensures CanAll(w, [a, b] + rest) && RunOf(w, [a, b] + rest) == RunOf(Next(Next(w, a), b), rest)
  {
    var steps := [a, b] + rest;
    assert steps[1..] == [b] + rest && steps[1..][1..] == rest;
  }

  lemma {:induction false} AskOnly(w: World, s: Step)
    requires Can(w, s)
    ensures CanAll(w, [s]) && RunOf(w, [s]) == Next(w, s)
  {
    assert [s][1..] == [];
  }

  lemma {:induction false} FromCursor(w: World, who: string, p: Peer, from: nat, max: nat, items: seq<Item>)
    requires Valid(w.table) && PeerSafe(w.table, p) && p == PeerOf(w, who) && p.cursor != max && IsMaxId(w.table, max)
    requires from == (if p.cursor > max then 0 else p.cursor) && IsListing(w.table, from, items)
    ensures
      var call := [Ask(who, max), List(who, items)] + Receives(who, |items|);
      && CanAll(w, call) && RunOf(w, call).table == w.table && who in RunOf(w, call).peers
      && RunOf(w, call).peers[who].sent == p.sent + Hashes(items)
  {
    var asked := Next(w, Ask(who, max));
    var listed := Next(asked, List(who, items));
    ReceivesAll(listed, who);
    TwoFirst(w, Ask(who, max), List(who, items), Receives(who, |items|));
  }

  lemma {:induction false} CallCatchesUp(w: World, who: string, p: Peer, from: nat, max: nat, items: seq<Item>)
    requires Valid(w.table) && PeerSafe(w.table, p) && p == PeerOf(w, who) && IsMaxId(w.table, max)
    requires from == (if p.cursor > max then 0 else p.cursor) && IsListing(w.table, from, items)
    ensures
      var call := Call(w.table, p, who, max, items);
      && CanAll(w, call) && RunOf(w, call).table == w.table && who in RunOf(w, call).peers
      && forall h :: Listable(w.table, h) ==> h in RunOf(w, call).peers[who].sent
  {
    if p.cursor == max {
      AskOnly(w, Ask(who, max));
      assert forall h :: Listable(w.table, h) ==> w.table.rows[h].id <= max;
    } else {
      FromCursor(w, who, p, from, max, items);
      ListingCovers(w.table, p, from, items);
    }
  }

  /** After any history one whole call brings a peer everything that is listable. */
  lemma {:induction false} OneCallCatchesUp(steps: seq<Step>, who: string, max: nat, items: seq<Item>)
    requires CanAll(START, steps) && IsMaxId(RunOf(START, steps).table, max)
    requires
      var w := RunOf(START, steps);
      var from := if PeerOf(w, who).cursor > max then 0 else PeerOf(w, who).cursor;
      IsListing(w.table, from, items)
    ensures
      var w := RunOf(START, steps);
      var call := Call(w.table, PeerOf(w, who), who, max, items);
      && CanAll(w, call) && RunOf(w, call).table == w.table && who in RunOf(w, call).peers
      && forall h :: Listable(w.table, h) ==> h in RunOf(w, call).peers[who].sent
  {
    var w := RunOf(START, steps);
    var p := PeerOf(w, who);
    RunIsSafe(START, steps);
    NewPeerIsSafe(w.table);
    CallCatchesUp(w, who, p, if p.cursor > max then 0 else p.cursor, max, items);
  }

  lemma {:induction false} ListingCovers(t: Table, p: Peer, from: nat, items: seq<Item>)
    requires PeerSafe(t, p) && from <= p.cursor && IsListing(t, from, items)
    ensures forall h :: Listable(t, h) ==> h in p.sent + Hashes(items)
  {
    forall h | Listable(t, h)
      ensures h in p.sent + Hashes(items)
    {
      if t.rows[h].id > from {
        var i :| 0 <= i < |items| && items[i] == Item(t.rows[h].id, h);
        assert items[i].hash in Hashes(items);
      }
    }
  }
}

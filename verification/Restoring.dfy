/**
 * Snapshot, EncodeStateAsUpdate and RestoreDoc on the objects: what the bytes say, in terms of what is stored,
 * and what the document that is made from them shows.
 */
module Restoring {
  import opened Wrappers
  import opened Values
  import opened Ids
  import opened Cells
  import opened Integration
  import opened Convergence
  import SV = StateVectors
  import opened UnitReplicas
  import opened Authoring
  import opened LocalEdits
  import opened DeleteOrder
  import opened Replicas
  import opened Replication
  import opened Tiling
  import opened DiffSync
  import opened Snapshots
  import Intention
  import Updates
  import opened Encoding
  import opened Items
  import opened Docs
  import opened Updater
  import opened Applying
  import opened Syncing
  import opened DiffBytes
  import SnapshotBytes
  import opened SentOrder

  /**
   * These items are what a receiver lacks that has everything below this state vector: of the stored items
   * those that end after the state of their client, as they are sent; by descending client, and of one client
   * by clock.
   */
  ghost predicate Lacks(store: Store, sv: map<nat, nat>, items: seq<Cell>) {
    && (forall c :: InStore(store, c) ==> (Wire(c) in items <==> c.id.client !in sv || End(c) > sv[c.id.client]))
    && (forall w :: w in items ==> exists c :: InStore(store, c) && Wire(c) == w)
    && Ordered(items)
  }

  lemma WiresLack(store: Store, sv: map<nat, nat>, cells: seq<Cell>)
    requires StoreSorted(store) && Ordered(cells)
    requires forall c :: c in cells <==> InStore(store, c) && End(c) > StateIn(sv, c.id.client)
    ensures Lacks(store, sv, Wires(cells))
  {
    var ws := Wires(cells);
    forall c | InStore(store, c) ensures Wire(c) in ws <==> c.id.client !in sv || End(c) > sv[c.id.client] {
      SizedIn(store, c);
      if c in cells {
        var i :| 0 <= i < |cells| && cells[i] == c;
        assert ws[i] == Wire(c);
      } else if Wire(c) in ws {
        var i :| 0 <= i < |ws| && ws[i] == Wire(c);
        SameStored(store, c, cells[i]);
      }
    }
    forall w | w in ws ensures exists c :: InStore(store, c) && Wire(c) == w {
      var i :| 0 <= i < |ws| && ws[i] == w;
      assert cells[i] in cells;
    }
  }

  lemma SizedIn(store: Store, c: Cell)
    requires StoreSorted(store) && InStore(store, c)
    ensures c.len >= 1
  {
  }

  lemma SameStored(store: Store, c: Cell, d: Cell)
    requires StoreSorted(store) && InStore(store, c) && InStore(store, d) && c.id == d.id
    ensures c == d
  {
    SizedIn(store, c);
    SizedIn(store, d);
    FindIsUnique(ItemsOf(store, c.id.client), c.id.client, c.id, c);
    FindIsUnique(ItemsOf(store, c.id.client), c.id.client, c.id, d);
  }

  /** What is sent for a state vector is decoded to exactly the items that the receiver lacks, and no deletion. */
  lemma DiffDecoded(store: Store, sv: map<nat, nat>, clients: seq<nat>, res: Result<Bytes>)
    requires GapFree(store) && StoreSendable(store) && Countable(store) && Carries(res, store, sv, clients)
    ensures var u := DecodeBytes(res.value);
            && u == Some(Update(Wires(Diff(store, sv, SV.SortDesc(store.Keys))), map[])) && Lacks(store, sv, u.value.items)
  {
    hide Sendable, GapFree, StoreSendable, AllSendable, Structs, Diff, Updates.AllFit, Updates.Print, Updates.Parse, Kept, AllItems, CellsFrom;
    DiffReadBack(store, sv, clients);
    var desc := Diff(store, sv, SV.SortDesc(store.Keys));
    StructsFit(desc);
    AllKept(Structs(desc));
    SV.SortDescIs(store.Keys);
    GapFreeSorted(store);
    DiffOrdered(store, sv, SV.SortDesc(store.Keys));
    forall c | InStore(store, c) ensures c.id.client in SV.SortDesc(store.Keys) { InKeys(store, c); }
    WiresLack(store, sv, desc);
  }

  lemma GapFreeSorted(store: Store)
    requires GapFree(store)
    ensures StoreSorted(store)
  {
    forall c | c in store ensures Sorted(store[c], c) { GapFreeAt(store, c); }
  }

  /** Doc.Snapshot: it never fails, and its bytes are read as everything that is stored, as it is sent, and no deletion. */
  method Snapshot(d: Doc) returns (res: Result<Bytes>)
    requires d.Valid() && StoreSendable(d.held.view.store) && Countable(d.held.view.store)
    ensures res.Ok?
    ensures GapFree(d.held.view.store) ==>
              var u := DecodeBytes(res.value);
              && u.Some? && u.value.ranges == map[] && Ordered(u.value.items)
              && (forall c :: InStore(d.held.view.store, c) ==> Wire(c) in u.value.items)
              && (forall w :: w in u.value.items ==> exists c :: InStore(d.held.view.store, c) && Wire(c) == w)
              && u.value.items == Sent(d.held.view.store)
  {
    hide Coherent, Embodied, Inv, Placed, StoreSendable, Carries, Countable, GapFree, DecodeBytes, Wire;
    ghost var clients;
    res, clients := EncodeStateAsUpdate(d, []);
    CarriesOk(res, d.held.view.store, map[], clients);
    if GapFree(d.held.view.store) { DiffDecoded(d.held.view.store, map[], clients, res); }
  }

  lemma CarriesOk(res: Result<Bytes>, store: Store, sv: map<nat, nat>, clients: seq<nat>)
    requires Carries(res, store, sv, clients)
    ensures res.Ok?
  {
  }

  /** EncodeStateAsUpdate for a receiver that sends the bytes of its state vector: what it lacks. */
  method SendTo(d: Doc, encodedStateVector: Bytes, ghost sv: map<nat, nat>) returns (res: Result<Bytes>)
    requires d.Valid() && StoreSendable(d.held.view.store) && Countable(d.held.view.store)
    requires SV.Fits(sv) && encodedStateVector == SV.Print(sv)
    ensures res.Ok?
    ensures GapFree(d.held.view.store) ==>
              var u := DecodeBytes(res.value); u.Some? && u.value.ranges == map[] && Lacks(d.held.view.store, sv, u.value.items)
  {
    hide Coherent, Embodied, Inv, Placed, StoreSendable, Carries, Countable, GapFree, DecodeBytes, Wire, Lacks, SV.Print, SV.Fits;
    ghost var clients;
    res, clients := EncodeStateAsUpdate(d, encodedStateVector);
    CarriesOk(res, d.held.view.store, sv, clients);
    if GapFree(d.held.view.store) { DiffDecoded(d.held.view.store, sv, clients, res); }
  }

  /** The bytes can be restored: their items come in their turn, and use every name for one kind of type. */
  ghost predicate Restorable(data: Bytes, kinds: map<Name, TypeKind>) {
    Readable(data) && (DecodeBytes(data).Some? ==> Acceptable(EMPTY, map[], DecodeBytes(data).value, kinds))
  }

  /** RestoreDoc: bytes that cannot be decoded give no document; others the one that the decoded update makes of an empty one. */
  method RestoreDoc(clientID: nat, data: Bytes, ghost kinds: map<Name, TypeKind>) returns (d: Doc?)
    requires Restorable(data, kinds)
    ensures d == null <==> DecodeBytes(data).None?
    ensures d != null ==> fresh(d) && fresh(d.store) && fresh(d.share.Values) && fresh(d.held.says.Keys) && d.Valid() && d.clientID == clientID
    ensures d != null ==> exists order :: Visits(order, Merge(map[], DecodeBytes(data).value.ranges))
                            && d.held.view == Replicas.ApplyUpdate(EMPTY, DecodeBytes(data).value, order)
  {
    hide Coherent, Embodied, Inv, Placed, DecodeBytes, Readable, Lands, KindsFit, Visits, Merge, Replicas.ApplyUpdate, DeletedArrive;
    var doc := new Doc(clientID);
    var ok; ghost var order;
    ok, order := Applying.ApplyUpdate(doc, data, kinds);
    if !ok { return null; }
    return doc;
  }

  lemma NothingToVisit(order: seq<ClientRange>)
    requires Visits(order, Merge(map[], map[]))
    ensures order == []
  {
    FirstVisited(order);
  }

  lemma FirstVisited(order: seq<ClientRange>)
    ensures order == [] || order[0] in order
  {
  }

  /** Items without deletions make of an empty document what they are delivered to. */
  lemma OnlyItems(items: seq<Cell>, order: seq<ClientRange>)
    requires Visits(order, Merge(map[], map[]))
    ensures Replicas.ApplyUpdate(EMPTY, Update(items, map[]), order) == Deliver(EMPTY, items)
  {
    hide Deliver, Visits;
    NothingToVisit(order);
    assert EMPTY.(ds := Merge(map[], map[])) == EMPTY;
  }

  /** A snapshot and the document that is restored from it. */
  method SnapshotAndRestore(d: Doc, clientID: nat, ghost kinds: map<Name, TypeKind>) returns (r: Doc)
    requires d.Valid() && StoreSendable(d.held.view.store) && Countable(d.held.view.store) && GapFree(d.held.view.store)
    requires Lands(EMPTY, Sent(d.held.view.store)) && KindsOf(Sent(d.held.view.store), kinds)
    ensures fresh(r) && r.Valid() && r.clientID == clientID && r.held.view == Deliver(EMPTY, Sent(d.held.view.store))
  {
    hide Coherent, Embodied, Inv, Placed, DecodeBytes, Lands, KindsOf, Merge, Visits, Replicas.ApplyUpdate, Wire, Ordered, Sent, StoreSendable, Countable, GapFree;
    var data := Snapshot(d);
    ghost var sent := Sent(d.held.view.store);
    IsRestorable(data.value, sent, kinds);
    var doc := RestoreDoc(clientID, data.value, kinds);
    ghost var order :| Visits(order, Merge(map[], map[])) && doc.held.view == Replicas.ApplyUpdate(EMPTY, Update(sent, map[]), order);
    OnlyItems(sent, order);
    r := doc;
  }

  lemma IsRestorable(data: Bytes, sent: seq<Cell>, kinds: map<Name, TypeKind>)
    requires DecodeBytes(data) == Some(Update(sent, map[])) && Lands(EMPTY, sent) && KindsOf(sent, kinds)
    ensures Restorable(data, kinds)
  {
    hide Lands, KindsOf, AllItems, Kept, CellsFrom, Updates.Parse;
    assert EMPTY.(ds := Merge(map[], map[])) == EMPTY;
    NoTypes(kinds);
  }

  lemma NoTypes(kinds: map<Name, TypeKind>)
    ensures KnownKinds(map[], kinds)
  {
  }

  // Several authors: what is sent fits when its turn comes.

  /** A stored item of what was delivered so far, in the document from which it was sent. */
  lemma CameFrom(d: DocState, ws: seq<Cell>, c: Cell) returns (w: Cell, o: Cell)
    requires Inv(d) && (forall v :: v in ws ==> v in Sent(d.store)) && InStore(Deliver(EMPTY, ws).store, c)
    ensures w in ws && InStore(d.store, o) && w == Wire(o)
    ensures c.id == o.id && c.len == o.len && w.id == c.id && w.len == c.len && (IsEntry(c) <==> IsEntry(o))
  {
    hide Deliver, Sent, Inv;
    Intention.StoredCame(EMPTY, ws, c);
    assert Intention.CameWith(ws, c);
    w :| w in ws && c == w.(home := c.home);
    var j :| 0 <= j < |Sent(d.store)| && Sent(d.store)[j] == w;
    o := SentAt(d, j);
    WireKeeps(o);
  }

  /** No clock of a stored item is above the next one of its client. */
  lemma StateBelow(t: DocState, client: nat, clock: nat)
    requires Inv(t) && forall c :: InStore(t.store, c) && c.id.client == client ==> End(c) <= clock
    ensures StateOf(t.store, client) <= clock
  {
    var items := ItemsOf(t.store, client);
    assert Sorted(items, client);
    if items != [] { assert items[|items| - 1] in items && InStore(t.store, items[|items| - 1]); }
  }

  lemma SentFitsAt(items: seq<Cell>, d: DocState, j: nat)
    requires Inv(d) && Holds(d, items) && (forall x :: x in items ==> Produced(x)) && j < |Sent(d.store)|
    requires Inv(Deliver(EMPTY, Sent(d.store)[..j]))
    ensures Fits(Deliver(EMPTY, Sent(d.store)[..j]), Sent(d.store)[j])
  {
    hide Inv, Holds, Deliver, Sent, Find, IsEntry;
    var ws, before := Sent(d.store), Sent(d.store)[..j];
    var t, x := Deliver(EMPTY, before), ws[j];
    SentProduced(items, d, j);
    SentOrdered(d);
    forall c | InStore(t.store, c) && c.id.client == x.id.client ensures End(c) <= x.id.clock {
      var w, o := CameFrom(d, before, c);
      var k :| 0 <= k < j && before[k] == w;
      assert Earlier(ws[k], ws[j]);
    }
    StateBelow(t, x.id.client, x.id.clock);
    if x.left.Some? && Lookup(t.store, x.left.value).Some? { OriginNoEntry(items, d, j); }
  }

  lemma OriginNoEntry(items: seq<Cell>, d: DocState, j: nat)
    requires Inv(d) && Holds(d, items) && j < |Sent(d.store)| && Sent(d.store)[j].left.Some?
    requires Lookup(Deliver(EMPTY, Sent(d.store)[..j]).store, Sent(d.store)[j].left.value).Some?
    requires Inv(Deliver(EMPTY, Sent(d.store)[..j]))
    ensures !IsEntry(Lookup(Deliver(EMPTY, Sent(d.store)[..j]).store, Sent(d.store)[j].left.value).value)
  {
    hide Inv, Deliver, Sent, Find, IsEntry, Wire;
    var left := Sent(d.store)[j].left.value;
    var t := Deliver(EMPTY, Sent(d.store)[..j]);
    var c := Lookup(t.store, left).value;
    StoredIn(t, left);
    var w, o := CameFrom(d, Sent(d.store)[..j], c);
    var x := SentAt(d, j);
    WireKeeps(x);
    assert OriginStored(d.store, x);
    OnlyOne(d, left, o, Lookup(d.store, left).value);
  }

  lemma StoredIn(t: DocState, id: Id)
    requires Inv(t) && Lookup(t.store, id).Some?
    ensures InStore(t.store, Lookup(t.store, id).value)
  {
    assert Sorted(ItemsOf(t.store, id.client), id.client);
  }

  lemma {:induction false} SentLandsFrom(items: seq<Cell>, d: DocState, j: nat)
    requires Inv(d) && Holds(d, items) && (forall x :: x in items ==> Produced(x)) && j <= |Sent(d.store)|
    requires Inv(Deliver(EMPTY, Sent(d.store)[..j]))
    ensures Lands(Deliver(EMPTY, Sent(d.store)[..j]), Sent(d.store)[j..])
    decreases |Sent(d.store)| - j
  {
    hide Inv, Holds, Deliver, Sent, Produced, Fits;
    var ws := Sent(d.store);
    if j < |ws| {
      var t := Deliver(EMPTY, ws[..j]);
      SentFitsAt(items, d, j);
      ReceiveKeepsInv(t, ws[j]);
      assert ws[..j + 1] == ws[..j] + [ws[j]] && ws[j..][0] == ws[j] && ws[j..][1..] == ws[j + 1..];
      DeliverConcat(EMPTY, ws[..j], [ws[j]]);
      Snapshots.DeliverOne(t, ws[j]);
      SentLandsFrom(items, d, j + 1);
    }
  }

  /** Whatever is sent of a document that was built in causal order can be restored. */
  lemma SentLands(items: seq<Cell>, d: DocState)
    requires Flows(EMPTY, items) && NamedAll(items) && d == Deliver(EMPTY, items)
    ensures Lands(EMPTY, Sent(d.store)) && forall x :: x in Sent(d.store) <==> x in items
  {
    hide Inv, Holds, Sent, Flows, Deliver;
    NothingHeld();
    DeliverHolds(EMPTY, [], items);
    assert [] + items == items;
    FlowsProduced(EMPTY, items);
    var ws := Sent(d.store);
    assert ws[..0] == [] && ws[0..] == ws;
    DeliverNothing(EMPTY);
    SentLandsFrom(items, d, 0);
    forall x ensures x in ws <==> x in items { SentHas(items, d, x); }
  }

  lemma SameKinds(items: seq<Cell>, sent: seq<Cell>, kinds: map<Name, TypeKind>)
    requires KindsOf(items, kinds) && forall x :: x in sent <==> x in items
    ensures KindsOf(sent, kinds)
  {
    forall i | 0 <= i < |sent| && sent[i].home.Some?
      ensures sent[i].home.value in kinds && kinds[sent[i].home.value] == KindFor(sent[i])
    {
      assert sent[i] in sent;
      var j :| 0 <= j < |items| && items[j] == sent[i];
    }
  }

  /**
   * Snapshot and RestoreDoc, on the objects and through the bytes, for a document that was built in causal
   * order by any number of authors: the restored document has the same store and the same lists if and only if
   * no item has an origin of a client with a smaller ID.
   */
  method RestoreOfMany(d: Doc, clientID: nat, ghost items: seq<Cell>, ghost kinds: map<Name, TypeKind>) returns (r: Doc)
    requires d.Valid() && StoreSendable(d.held.view.store) && Countable(d.held.view.store) && GapFree(d.held.view.store)
    requires Flows(EMPTY, items) && NamedAll(items) && SameItems(d.held.view, Deliver(EMPTY, items)) && KindsOf(items, kinds)
    ensures fresh(r) && r.Valid() && r.clientID == clientID
    ensures SameItems(r.held.view, d.held.view) <==>
              forall c :: InStore(d.held.view.store, c) && c.left.Some? ==> c.left.value.client >= c.id.client
  {
    hide Coherent, Embodied, Inv, Placed, Lands, KindsOf, Sent, StoreSendable, Countable, GapFree, Flows, Deliver, NamedAll, InStore;
    SentLands(items, Deliver(EMPTY, items));
    SameKinds(items, Sent(d.held.view.store), kinds);
    RebuiltIff(items, Deliver(EMPTY, items));
    DescendIs(d.held.view.store);
    r := SnapshotAndRestore(d, clientID, kinds);
  }

  lemma DescendIs(store: Store)
    ensures OriginsDescend(store) <==> forall c :: InStore(store, c) && c.left.Some? ==> c.left.value.client >= c.id.client
  {
    if forall c :: InStore(store, c) && c.left.Some? ==> c.left.value.client >= c.id.client {
      forall c | InStore(store, c) ensures OriginNotSmaller(c) {
      }
    }
    if OriginsDescend(store) {
      forall c | InStore(store, c) && c.left.Some? ensures c.left.value.client >= c.id.client {
        assert OriginNotSmaller(c);
      }
    }
  }

  // One author.

  /** What is sent of the only author is its items in order, which a fresh document can take. */
  lemma OwnSent(me: nat, steps: seq<Step>)
    requires AllowedAll(EMPTY, me, steps)
    requires var s := TakeAll(EMPTY, me, steps); StoreSendable(s.store)
    ensures var s := TakeAll(EMPTY, me, steps); Sent(s.store) == SnapshotOf(s, me) && Lands(EMPTY, SnapshotOf(s, me))
  {
    hide TakeAll, AllowedAll, Sendable, InRow, Local, Inv, Diff, Lands;
    var s := TakeAll(EMPTY, me, steps);
    SnapshotBytes.StartsInRow(me);
    SnapshotBytes.StepsInRow(EMPTY, me, steps);
    DescLists(s.store);
    assert AllSendable(ItemsOf(s.store, me));
    SnapshotBytes.AllSent(s.store, me, SV.SortDesc(s.store.Keys));
    StartShadows(me);
    var f := TakeAllShadows(EMPTY, EMPTY, me, steps);
  }

  predicate FromZero(items: seq<Cell>) {
    items != [] ==> items[0].id.clock == 0
  }

  lemma StepFromZero(s: DocState, me: nat, e: Step)
    requires Allowed(s, e) && FromZero(ItemsOf(s.store, me))
    ensures FromZero(ItemsOf(Take(s, me, e).store, me))
  {
  }

  lemma {:induction false} StepsFromZero(s: DocState, me: nat, steps: seq<Step>)
    requires AllowedAll(s, me, steps) && FromZero(ItemsOf(s.store, me))
    ensures FromZero(ItemsOf(TakeAll(s, me, steps).store, me))
    decreases |steps|
  {
    hide Take, Allowed, FromZero;
    if steps != [] {
      StepFromZero(s, me, steps[0]);
      StepsFromZero(Take(s, me, steps[0]), me, steps[1..]);
    }
  }

  /** The items of the only author leave no gap. */
  lemma OwnGapFree(me: nat, steps: seq<Step>)
    requires AllowedAll(EMPTY, me, steps) && Inv(TakeAll(EMPTY, me, steps))
    ensures GapFree(TakeAll(EMPTY, me, steps).store)
  {
    hide TakeAll, AllowedAll;
    var s := TakeAll(EMPTY, me, steps);
    SnapshotBytes.StartsInRow(me);
    SnapshotBytes.StepsInRow(EMPTY, me, steps);
    StepsFromZero(EMPTY, me, steps);
    forall c ensures Tiled(ItemsOf(s.store, c), c) {
      assert c in s.store ==> c == me && Sorted(s.store[c], c);
    }
  }

  /** What a reader sees of an array or a text. */
  function Shown(s: DocState, name: Name): seq<Cell> {
    Visible(ChainOf(s.chains, ArrayKey(name)), s.dead)
  }

  lemma OwnReads(me: nat, steps: seq<Step>, name: Name, key: Name)
    requires AllowedAll(EMPTY, me, steps)
    ensures var s := TakeAll(EMPTY, me, steps); var r := Deliver(EMPTY, SnapshotOf(s, me)); var entries := ChainOf(s.chains, EntryKey(name, key));
            && (Shown(r, name) == Shown(s, name) <==>
                  forall c :: c in ItemsOf(s.store, me) && c.home == Some(name) && !IsEntry(c) ==> c.id !in s.dead)
            && (Get(r, name, key) == Get(s, name, key) <==> entries == [] || entries[0].id !in s.dead)
  {
    hide TakeAll, AllowedAll, Deliver, IsEntry;
    SnapshotRoundTrip(me, steps, name, key);
  }

  /**
   * The same for a document that one author built: after restoring, each array reads the same exactly if none
   * of its elements was ever deleted, and each key of a map has the same value exactly if its current entry is
   * not deleted.
   */
  method RestoreOfAuthor(d: Doc, clientID: nat, ghost me: nat, ghost steps: seq<Step>, ghost kinds: map<Name, TypeKind>) returns (r: Doc)
    requires d.Valid() && StoreSendable(d.held.view.store) && Countable(d.held.view.store)
    requires AllowedAll(EMPTY, me, steps) && d.held.view == TakeAll(EMPTY, me, steps)
    requires KindsOf(Wires(ItemsOf(d.held.view.store, me)), kinds)
    ensures fresh(r) && r.Valid() && r.clientID == clientID
    ensures forall name :: Shown(r.held.view, name) == Shown(d.held.view, name) <==>
              forall c :: c in ItemsOf(d.held.view.store, me) && c.home == Some(name) && !IsEntry(c) ==> c.id !in d.held.view.dead
    ensures forall name, key :: Get(r.held.view, name, key) == Get(d.held.view, name, key) <==>
              var entries := ChainOf(d.held.view.chains, EntryKey(name, key)); entries == [] || entries[0].id !in d.held.view.dead
  {
    hide Coherent, Embodied, Inv, Placed, Lands, KindsOf, Sent, StoreSendable, Countable, GapFree, Deliver, TakeAll, AllowedAll, Shown, Get, IsEntry;
    OwnSent(me, steps);
    OwnGapFree(me, steps);
    r := SnapshotAndRestore(d, clientID, kinds);
    forall name
      ensures Shown(r.held.view, name) == Shown(d.held.view, name) <==>
                forall c :: c in ItemsOf(d.held.view.store, me) && c.home == Some(name) && !IsEntry(c) ==> c.id !in d.held.view.dead
    {
      OwnReads(me, steps, name, []);
    }
    forall name, key
      ensures Get(r.held.view, name, key) == Get(d.held.view, name, key) <==>
                var entries := ChainOf(d.held.view.chains, EntryKey(name, key)); entries == [] || entries[0].id !in d.held.view.dead
    {
      OwnReads(me, steps, name, key);
    }
  }
}

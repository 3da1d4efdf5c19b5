/** Snapshot and RestoreDoc with their bytes: the restored document is the one that is read from them. */
module SnapshotBytes {
  import opened Wrappers
  import opened Values
  import opened Cells
  import opened Integration
  import opened Varints
  import opened UnitReplicas
  import opened Authoring
  import opened DiffSync
  import opened Replicas
  import opened Snapshots
  import Updates
  import opened Encoding

  /** Every step stores at most one item, at the next clock of the author. */
  lemma StepInRow(s: DocState, me: nat, e: Step)
    requires Allowed(s, e) && InRow(ItemsOf(s.store, me), me)
    ensures InRow(ItemsOf(Take(s, me, e).store, me), me)
    ensures forall c :: c in Take(s, me, e).store ==> c in s.store || c == me
  {
  }

  lemma {:induction false} StepsInRow(s: DocState, me: nat, steps: seq<Step>)
    requires AllowedAll(s, me, steps) && InRow(ItemsOf(s.store, me), me) && forall c :: c in s.store ==> c == me
    ensures var t := TakeAll(s, me, steps); InRow(ItemsOf(t.store, me), me) && forall c :: c in t.store ==> c == me
    decreases |steps|
  {
    hide Take, Allowed, InRow;
    if steps != [] {
      StepInRow(s, me, steps[0]);
      StepsInRow(Take(s, me, steps[0]), me, steps[1..]);
    }
  }

  /** Without a state vector all items are sent. */
  lemma AllSent(store: Store, me: nat, clients: seq<nat>)
    requires Lists(clients, store) && (forall c :: c in store ==> c == me) && AllSendable(ItemsOf(store, me))
    ensures Diff(store, map[], clients) == ItemsOf(store, me)
  {
    hide Sendable;
    var items := ItemsOf(store, me);
    if clients == [] {
      assert me !in store;
    } else {
      FirstTwo(clients);
      assert clients[1..] == [] && clients[0] == me;
      assert items != [] ==> End(items[0]) > 0 by { if items != [] { FirstNotEmpty(items); } }
      assert Rest(items, 0) == items[0..] && items[0..] == items;
      assert items + [] == items;
    }
  }

  lemma FirstTwo(clients: seq<nat>)
    requires clients != []
    ensures clients[0] in clients && (|clients| > 1 ==> clients[1] in clients)
  {
  }

  lemma FirstNotEmpty(items: seq<Cell>)
    requires AllSendable(items) && items != []
    ensures End(items[0]) > 0
  {
    assert Sendable(items[0]);
  }

  /** The bytes of the snapshot of a document, as EncodeStateAsUpdate sends it with no state vector. */
  ghost function SnapshotData(store: Store, clients: seq<nat>): Bytes
    requires AllSendable(Diff(store, map[], clients)) && Updates.AllFit(Structs(Diff(store, map[], clients)))
    requires Updates.Print(Updates.UpdateV1(Structs(Diff(store, map[], clients)), map[])).Ok?
  {
    Updates.Print(Updates.UpdateV1(Structs(Diff(store, map[], clients)), map[])).value
  }

  /**
   * The bytes of a snapshot of one author are read back as the items of the snapshot, so the document
   * that is restored from them is the one that these items make.
   */
  lemma SnapshotReadBack(me: nat, steps: seq<Step>, clients: seq<nat>)
    requires AllowedAll(EMPTY, me, steps)
    requires var s := TakeAll(EMPTY, me, steps);
             AllSendable(ItemsOf(s.store, me)) && |ItemsOf(s.store, me)| < TWO64 && Lists(clients, s.store)
    ensures var s := TakeAll(EMPTY, me, steps);
            var items := Diff(s.store, map[], clients);
            && AllSendable(items) && Updates.AllFit(Structs(items)) && Updates.Print(Updates.UpdateV1(Structs(items), map[])).Ok?
            && DecodeBytes(SnapshotData(s.store, clients)) == Some(Update(SnapshotOf(s, me), map[]))
            && Replicas.ApplyUpdate(EMPTY, Update(SnapshotOf(s, me), map[]), []) == Restored(s, me)
  {
    hide TakeAll, AllowedAll, Sendable, Updates.Print, Updates.Parse, Updates.AllFit, AllItems, Kept, CellsFrom, Diff, Structs, InRow, Deliver;
    var s := TakeAll(EMPTY, me, steps);
    StartsInRow(me);
    StepsInRow(EMPTY, me, steps);
    AllSent(s.store, me, clients);
    BytesRoundTrip(ItemsOf(s.store, me), me, map[]);
    AllKept(Structs(ItemsOf(s.store, me)));
    assert EMPTY.(ds := Merge(map[], map[])) == EMPTY;
  }

  lemma StartsInRow(me: nat)
    ensures InRow(ItemsOf(EMPTY.store, me), me)
  {
  }

  /**
   * Snapshot round trip, through the bytes: the text or array that is restored from them is that of
   * the author exactly if no element of that name was ever deleted, and the value of a key exactly if
   * its current entry is not deleted.
   */
  lemma RestoreRoundTrip(me: nat, steps: seq<Step>, clients: seq<nat>, name: Name, key: Name)
    requires AllowedAll(EMPTY, me, steps)
    requires var s := TakeAll(EMPTY, me, steps);
             AllSendable(ItemsOf(s.store, me)) && |ItemsOf(s.store, me)| < TWO64 && Lists(clients, s.store)
    ensures var s := TakeAll(EMPTY, me, steps);
            var items := Diff(s.store, map[], clients);
            && AllSendable(items) && Updates.AllFit(Structs(items)) && Updates.Print(Updates.UpdateV1(Structs(items), map[])).Ok?
            && var u := DecodeBytes(SnapshotData(s.store, clients));
               && u.Some?
               && var r := Replicas.ApplyUpdate(EMPTY, u.value, []);
                  var entries := ChainOf(s.chains, EntryKey(name, key));
                  && (Visible(ChainOf(r.chains, ArrayKey(name)), r.dead) == Visible(ChainOf(s.chains, ArrayKey(name)), s.dead)
                      <==> NeverDeleted(s, me, name))
                  && (Get(r, name, key) == Get(s, name, key) <==> entries == [] || entries[0].id !in s.dead)
  {
    hide TakeAll, AllowedAll, AllSendable, Updates.Print, Updates.AllFit, Diff, Structs, SnapshotData, DecodeBytes, Restored, ApplyUpdate;
    hide Visible, Get, NeverDeleted;
    SnapshotReadBack(me, steps, clients);
    SnapshotRoundTrip(me, steps, name, key);
  }
}

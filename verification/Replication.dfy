/**
 * Replication of one author: a replica that applies the updates an author emits, transaction by
 * transaction, shows the same arrays and the same map values after each of them.
 */
module Replication {
  import opened Wrappers
  import opened Values
  import opened Ids
  import opened Cells
  import opened Integration
  import opened Convergence
  import opened DeleteOrder
  import opened Exactness
  import opened Replicas
  import opened UnitReplicas
  import opened Authoring
  import opened LocalEdits

  function Wires(items: seq<Cell>): (ws: seq<Cell>)
    ensures |ws| == |items| && forall i :: 0 <= i < |ws| ==> ws[i] == Wire(items[i])
  {
    seq(|items|, i requires 0 <= i < |items| => Wire(items[i]))
  }

  /** The delete set of an update: one range of one clock for each deleted item. */
  function KillSet(kills: seq<Id>): DeleteSet {
    if kills == [] then map[]
    else
      var ds, id := KillSet(kills[..|kills| - 1]), kills[|kills| - 1];
      ds[id.client := RangesOf(ds, id.client) + [Range(id.clock, 1)]]
  }

  lemma {:induction false} KillSetIs(kills: seq<Id>, id: Id)
    ensures InDeleteSet(KillSet(kills), id) <==> id in kills
  {
    if kills != [] {
      var front, last := kills[..|kills| - 1], kills[|kills| - 1];
      KillSetIs(front, id);
      assert kills == front + [last];
      var ds, more := KillSet(front), KillSet(kills);
      if id.client == last.client {
        assert more[id.client] == RangesOf(ds, id.client) + [Range(last.clock, 1)];
        assert Range(last.clock, 1) in more[id.client];
      }
    }
  }

  /** The update that a transaction emits. */
  function Emitted(tx: Tx): Update {
    Update(Wires(tx.items), KillSet(tx.kills))
  }

  /** An array is the same list on both sides; of a map entry the author keeps only the head. */
  predicate SameList(a: seq<Cell>, d: seq<Cell>, k: Key) {
    if k.sub.None? then a == d else (a == [] <==> d == []) && (a != [] ==> a[0] == d[0])
  }

  ghost predicate Mirrors(s: DocState, d: DocState) {
    d.store == s.store && forall k: Key :: SameList(ChainOf(s.chains, k), ChainOf(d.chains, k), k)
  }

  predicate Known(ds: DeleteSet, kills: seq<Id>, id: Id) {
    InDeleteSet(ds, id) || id in kills
  }

  predicate AllKnown(chain: seq<Cell>, dead: set<Id>, ds: DeleteSet, kills: seq<Id>) {
    forall c :: c in chain && c.id in dead ==> Known(ds, kills, c.id)
  }

  /** What is recorded as deleted is deleted; what is deleted in a list is recorded. */
  ghost predicate Accounts(s: DocState, ds: DeleteSet, kills: seq<Id>) {
    && (forall id :: Known(ds, kills, id) ==> id in s.dead)
    && (forall k: Key :: AllKnown(ChainOf(s.chains, k), s.dead, ds, kills))
  }

  /** In the middle of a transaction: if the replica had the items so far, it would mirror the author. */
  ghost predicate Feeds(tx: Tx, me: nat, r: DocState) {
    var d := Deliver(r, Wires(tx.items));
    && Local(tx.state, me) && Flows(r, Wires(tx.items)) && AllUnits(Wires(tx.items)) && Inv(d)
    && Mirrors(tx.state, d) && Accounts(tx.state, r.ds, tx.kills)
  }

  lemma WiresMore(items: seq<Cell>, c: Cell)
    ensures Wires(items + [c]) == Wires(items) + [Wire(c)]
  {
  }

  /** One more item that the replica could receive next. */
  lemma FeedsMore(tx: Tx, me: nat, r: DocState, c: Cell, t: Tx)
    requires Feeds(tx, me, r) && t.items == tx.items + [c] && IsUnit(c)
    requires var d := Deliver(r, Wires(tx.items));
             && Enabled(d, Wire(c)) && Mirrors(t.state, Receive(d, Wire(c)))
    requires Local(t.state, me) && Accounts(t.state, r.ds, t.kills)
    ensures Feeds(t, me, r)
  {
    hide Local, Enabled, Receive, Mirrors, Accounts, Inv, Wire;
    var ws, w := Wires(tx.items), Wire(c);
    var d := Deliver(r, ws);
    WiresMore(tx.items, c);
    DeliverConcat(r, ws, [w]);
    assert [w][1..] == [] && Deliver(d, [w]) == Receive(d, w) && Flows(d, [w]);
    EnabledFits(d, w);
    ReceiveKeepsInv(d, w);
    assert IsUnit(w) by { WireUnit(c); }
  }

  lemma EnabledFits(d: DocState, w: Cell)
    requires Enabled(d, w)
    ensures Fits(d, w)
  {
  }

  lemma WireUnit(c: Cell)
    ensures IsUnit(c) ==> IsUnit(Wire(c))
  {
  }

  /** The replica puts an element of an array where the author put it. */
  lemma ElementArrives(s: DocState, d: DocState, me: nat, name: Name, p: nat, c: Cell)
    requires Local(s, me) && FitsAt(s, me, name, p, c) && Mirrors(s, d)
    ensures Enabled(d, Wire(c))
    ensures var t := PutAt(s, ArrayKey(name), p, c);
            Receive(d, Wire(c)).store == t.store
            && Receive(d, Wire(c)).chains == d.chains[ArrayKey(name) := ChainOf(t.chains, ArrayKey(name))]
  {
    hide Find, Inv, Placed, Integrate;
    var key, w := ArrayKey(name), Wire(c);
    ElementIsReceived(s, me, name, p, c);
    ListOf(s, me, key);
    assert SameList(ChainOf(s.chains, key), ChainOf(d.chains, key), key);
    if p > 0 {
      assert ChainOf(s.chains, key)[p - 1] in ChainOf(s.chains, key);
      StoreFinds(s, me, ChainOf(s.chains, key)[p - 1], c.left.value);
    }
    assert w.(home := Some(name)) == c;
  }

  lemma StoreFinds(s: DocState, me: nat, o: Cell, id: Id)
    requires Inv(s) && InStore(s.store, o) && o.id.client == me && Covers(o, id)
    ensures Lookup(s.store, id) == Some(o)
  {
    FindIsUnique(ItemsOf(s.store, me), me, id, o);
  }

  /** A new item that is not deleted leaves the accounts as they are. */
  lemma AccountsMore(s: DocState, t: DocState, ds: DeleteSet, kills: seq<Id>, k: Key, c: Cell)
    requires Accounts(s, ds, kills) && t.dead == s.dead && c.id !in s.dead
    requires forall l :: l != k ==> ChainOf(t.chains, l) == ChainOf(s.chains, l)
    requires forall d :: d in ChainOf(t.chains, k) ==> d == c || d in ChainOf(s.chains, k)
    ensures Accounts(t, ds, kills)
  {
    hide Known;
    forall l: Key ensures AllKnown(ChainOf(t.chains, l), t.dead, ds, kills) {
      assert AllKnown(ChainOf(s.chains, l), s.dead, ds, kills);
    }
  }

  lemma MirrorsMore(s: DocState, d: DocState, t: DocState, e: DocState, k: Key)
    requires Mirrors(s, d) && e.store == t.store && SameList(ChainOf(t.chains, k), ChainOf(e.chains, k), k)
    requires forall l :: l != k ==> ChainOf(t.chains, l) == ChainOf(s.chains, l) && ChainOf(e.chains, l) == ChainOf(d.chains, l)
    ensures Mirrors(t, e)
  {
    hide SameList;
    forall l: Key ensures SameList(ChainOf(t.chains, l), ChainOf(e.chains, l), l) {
      assert SameList(ChainOf(s.chains, l), ChainOf(d.chains, l), l);
    }
  }

  lemma ElementFeeds(tx: Tx, me: nat, r: DocState, name: Name, p: nat, v: Any)
    requires Feeds(tx, me, r) && name != [] && p <= |ChainOf(tx.state.chains, ArrayKey(name))|
    ensures Feeds(PutElement(tx, me, name, p, v), me, r)
  {
    hide Local, Inv, Enabled, Receive, Flows, Mirrors, Accounts, Wire, Origin, FitsAt;
    var key, s, d := ArrayKey(name), tx.state, Deliver(r, Wires(tx.items));
    var c, t := Element(s, me, name, p, v), PutElement(tx, me, name, p, v);
    var chain := ChainOf(s.chains, key);
    ElementFits(s, me, name, p, v);
    ElementKeepsLocal(s, me, name, p, c);
    ElementArrives(s, d, me, name, p, c);
    LocalIsFresh(s, me);
    PutElementIs(tx, me, name, p, v);
    InsertAtElements(chain, p, c);
    AccountsMore(s, t.state, r.ds, tx.kills, key, c);
    MirrorsMore(s, d, t.state, Receive(d, Wire(c)), key);
    FeedsMore(tx, me, r, c, t);
  }

  lemma {:induction false} PutAllFeeds(tx: Tx, me: nat, r: DocState, name: Name, p: nat, values: seq<Any>)
    requires Feeds(tx, me, r) && name != [] && p <= |ChainOf(tx.state.chains, ArrayKey(name))|
    ensures Feeds(PutAll(tx, me, name, p, values), me, r)
    decreases |values|
  {
    hide Feeds, Element;
    if values != [] {
      ElementFeeds(tx, me, r, name, p, values[0]);
      PutAllFeeds(PutElement(tx, me, name, p, values[0]), me, r, name, p + 1, values[1..]);
    }
  }

  /** The replica puts a new map entry at the head of the list of its key. */
  lemma EntryArrives(s: DocState, d: DocState, me: nat, name: Name, key: Name, v: Any)
    requires Local(s, me) && Mirrors(s, d) && name != []
    ensures var c, k := Entry(s, me, name, key, v), EntryKey(name, key);
            && Wire(c) == c && Enabled(d, c)
            && Receive(d, c).store == Append(s.store, c)
            && (forall l :: l != k ==> ChainOf(Receive(d, c).chains, l) == ChainOf(d.chains, l))
            && ChainOf(Receive(d, c).chains, k) != [] && ChainOf(Receive(d, c).chains, k)[0] == c
  {
    hide Find, Inv, Placed;
    var c, k := Entry(s, me, name, key, v), EntryKey(name, key);
    var chain := ChainOf(d.chains, k);
    assert StoreSorted(s.store) by { LocalSorted(s, me); }
    NotStored(s, me);
    ListOf(s, me, k);
    assert SameList(ChainOf(s.chains, k), chain, k);
    if chain != [] {
      assert chain[0] in ChainOf(s.chains, k);
      assert Before(c, chain[0]);
    }
    PlaceAt(chain, c, 0);
    assert c.(home := Resolve(d.store, c)) == c;
  }

  lemma LocalSorted(s: DocState, me: nat)
    requires Local(s, me)
    ensures StoreSorted(s.store)
  {
  }

  lemma EntryFeeds(tx: Tx, me: nat, r: DocState, name: Name, key: Name, v: Any)
    requires Feeds(tx, me, r) && name != []
    ensures Feeds(tx.(state := WithEntry(tx.state, me, name, key, v), items := tx.items + [Entry(tx.state, me, name, key, v)]), me, r)
  {
    hide Local, Inv, Enabled, Receive, Flows, Mirrors, Accounts, Wire;
    var k, s, d := EntryKey(name, key), tx.state, Deliver(r, Wires(tx.items));
    var c := Entry(s, me, name, key, v);
    var t := tx.(state := WithEntry(s, me, name, key, v), items := tx.items + [c]);
    EntryKeepsLocal(s, me, name, key, v);
    EntryArrives(s, d, me, name, key, v);
    LocalIsFresh(s, me);
    AccountsMore(s, t.state, r.ds, tx.kills, k, c);
    MirrorsMore(s, d, t.state, Receive(d, c), k);
    FeedsMore(tx, me, r, c, t);
  }

  /** Deleting items of a list, and recording it. */
  lemma MarkFeeds(tx: Tx, me: nat, r: DocState, k: Key, cells: seq<Cell>)
    requires Feeds(tx, me, r) && forall c :: c in cells ==> c in ChainOf(tx.state.chains, k)
    ensures Feeds(tx.(state := tx.state.(dead := tx.state.dead + IdsOf(cells)), kills := tx.kills + IdSeq(cells)), me, r)
  {
    hide Local, Inv, Flows, Deliver, InDeleteSet;
    var s := tx.state;
    var t := s.(dead := s.dead + IdsOf(cells));
    MarkKeepsLocal(s, me, k, cells);
    IdSeqIs(cells);
    forall l: Key ensures AllKnown(ChainOf(t.chains, l), t.dead, r.ds, tx.kills + IdSeq(cells)) {
      assert AllKnown(ChainOf(s.chains, l), s.dead, r.ds, tx.kills);
    }
    assert forall id :: Known(r.ds, tx.kills + IdSeq(cells), id) ==> Known(r.ds, tx.kills, id) || id in IdsOf(cells);
    SameMirror(s, Deliver(r, Wires(tx.items)), t.dead);
  }

  lemma IdSeqIs(cells: seq<Cell>)
    ensures forall id :: id in IdSeq(cells) <==> id in IdsOf(cells)
  {
    forall id | id in IdsOf(cells) ensures id in IdSeq(cells) {
      var c :| c in cells && c.id == id;
      var i :| 0 <= i < |cells| && cells[i] == c;
      assert IdSeq(cells)[i] == id;
    }
  }

  lemma SameMirror(s: DocState, d: DocState, dead: set<Id>)
    requires Mirrors(s, d)
    ensures Mirrors(s.(dead := dead), d)
  {
    forall k: Key ensures SameList(ChainOf(s.(dead := dead).chains, k), ChainOf(d.chains, k), k) {
      assert SameList(ChainOf(s.chains, k), ChainOf(d.chains, k), k);
    }
  }

  /** Marking an item that is in no list any more does not have to be recorded. */
  lemma UnlistedFeeds(tx: Tx, me: nat, r: DocState, id: Id)
    requires Feeds(tx, me, r) && Local(tx.state.(dead := tx.state.dead + {id}), me)
    requires forall l: Key :: NotIn(ChainOf(tx.state.chains, l), id)
    ensures Feeds(tx.(state := tx.state.(dead := tx.state.dead + {id})), me, r)
  {
    hide Local, Inv, Flows, Deliver, Known;
    var s := tx.state;
    var t := s.(dead := s.dead + {id});
    forall l: Key ensures AllKnown(ChainOf(t.chains, l), t.dead, r.ds, tx.kills) {
      assert AllKnown(ChainOf(s.chains, l), s.dead, r.ds, tx.kills) && NotIn(ChainOf(s.chains, l), id);
    }
    SameMirror(s, Deliver(r, Wires(tx.items)), t.dead);
  }

  predicate NotIn(chain: seq<Cell>, id: Id) {
    forall c :: c in chain ==> c.id != id
  }

  lemma OldEntryUnlisted(s: DocState, me: nat, name: Name, key: Name, v: Any, e: Cell)
    requires Local(s, me) && e in ChainOf(s.chains, EntryKey(name, key))
    ensures forall l: Key :: NotIn(ChainOf(WithEntry(s, me, name, key, v).chains, l), e.id)
  {
    hide Inv, Placed;
    var k := EntryKey(name, key);
    assert Inv(s) by { LocalInv(s, me); }
    ListOf(s, me, k);
    StoredBelow(s, e);
    forall l: Key ensures NotIn(ChainOf(WithEntry(s, me, name, key, v).chains, l), e.id) {
      if l != k {
        forall d | d in ChainOf(s.chains, l) ensures d.id != e.id {
          if d.id == e.id { ListsApart(s, k, l, e, d); }
        }
      }
    }
  }

  lemma SetFeeds(tx: Tx, me: nat, r: DocState, name: Name, key: Name, v: Any)
    requires Feeds(tx, me, r) && name != []
    ensures Feeds(Authoring.Set(tx, me, name, key, v), me, r)
  {
    hide Local, Inv, Flows, Deliver, Mirrors, Accounts, Entry;
    var s, k := tx.state, EntryKey(name, key);
    var entries := ChainOf(s.chains, k);
    EntryFeeds(tx, me, r, name, key, v);
    if entries != [] {
      var t := tx.(state := WithEntry(s, me, name, key, v), items := tx.items + [Entry(s, me, name, key, v)]);
      SetKeepsLocal(tx, me, name, key, v);
      OldEntryUnlisted(s, me, name, key, v, entries[0]);
      UnlistedFeeds(t, me, r, entries[0].id);
    }
  }

  /** Every operation leaves a transaction whose items and deletions would bring the replica up to date. */
  lemma DoFeeds(tx: Tx, me: nat, r: DocState, op: Op)
    requires Feeds(tx, me, r) && op.name != []
    ensures Feeds(Do(tx, me, op), me, r)
  {
    hide Feeds;
    match op {
      case Push(name, values) => PutAllFeeds(tx, me, r, name, |ChainOf(tx.state.chains, ArrayKey(name))|, values);
      case Insert(name, index, values) =>
        PutAllFeeds(tx, me, r, name, Slot(ChainOf(tx.state.chains, ArrayKey(name)), tx.state.dead, index), values);
      case Delete(name, index, length) =>
        DoomedIn(tx.state, name, index, length);
        MarkFeeds(tx, me, r, ArrayKey(name), Doomed(tx.state, name, index, length));
      case Set(name, key, value) => SetFeeds(tx, me, r, name, key, value);
      case Remove(name, key) =>
        var entries := ChainOf(tx.state.chains, EntryKey(name, key));
        if entries != [] && entries[0].id !in tx.state.dead {
          MarkFeeds(tx, me, r, EntryKey(name, key), [entries[0]]);
          assert IdsOf([entries[0]]) == {entries[0].id} && IdSeq([entries[0]]) == [entries[0].id];
        }
    }
  }

  lemma {:induction false} DoAllFeeds(tx: Tx, me: nat, r: DocState, ops: seq<Op>)
    requires Feeds(tx, me, r) && Named(ops)
    ensures Feeds(DoAll(tx, me, ops), me, r)
    decreases |ops|
  {
    hide Feeds, Do;
    if ops != [] {
      DoFeeds(tx, me, r, ops[0]);
      DoAllFeeds(Do(tx, me, ops[0]), me, r, ops[1..]);
    }
  }

  /** Author and replica between transactions. */
  ghost predicate Synced(s: DocState, me: nat, r: DocState) {
    Local(s, me) && UnitReplica(r) && Mirrors(s, r) && Accounts(s, r.ds, [])
  }

  lemma Begin(s: DocState, me: nat, r: DocState)
    requires Synced(s, me, r)
    ensures Feeds(Tx(s, [], []), me, r)
  {
    assert Wires([]) == [];
  }

  lemma AccountsMerged(s: DocState, ds: DeleteSet, kills: seq<Id>)
    requires Accounts(s, ds, kills)
    ensures Accounts(s, Merge(ds, KillSet(kills)), [])
  {
    var all := Merge(ds, KillSet(kills));
    hide InDeleteSet, Merge;
    MergeCovers(ds, KillSet(kills));
    forall id ensures Known(all, [], id) <==> Known(ds, kills, id) {
      KillSetIs(kills, id);
    }
    forall k: Key ensures AllKnown(ChainOf(s.chains, k), s.dead, all, []) {
      assert AllKnown(ChainOf(s.chains, k), s.dead, ds, kills);
    }
  }

  lemma MirrorsSame(s: DocState, d: DocState, e: DocState)
    requires Mirrors(s, d) && SameItems(e, d)
    ensures Mirrors(s, e)
  {
    forall k: Key ensures SameList(ChainOf(s.chains, k), ChainOf(e.chains, k), k) {
      assert SameList(ChainOf(s.chains, k), ChainOf(d.chains, k), k);
    }
  }

  /** Applying the update of a transaction brings the replica up to date. */
  lemma Commit(tx: Tx, me: nat, r: DocState, order: seq<ClientRange>)
    requires Feeds(tx, me, r) && UnitReplica(r) && Visits(order, Merge(r.ds, Emitted(tx).ranges))
    ensures Synced(tx.state, me, ApplyUpdate(r, Emitted(tx), order))
  {
    hide Local, UnitReplica, Mirrors, Accounts, Visits, ApplyUpdate, Merge, Inv;
    UnitUpdate(r, Emitted(tx), order);
    AccountsMerged(tx.state, r.ds, tx.kills);
    MirrorsSame(tx.state, Deliver(r, Wires(tx.items)), ApplyUpdate(r, Emitted(tx), order));
  }

  /** A transaction, and the order in which the replica visits its delete set when it applies the update. */
  datatype Transaction = Transaction(ops: seq<Op>, order: seq<ClientRange>)

  function Work(s: DocState, me: nat, ops: seq<Op>): Tx {
    DoAll(Tx(s, [], []), me, ops)
  }

  function Author(s: DocState, me: nat, session: seq<Transaction>): DocState
    decreases |session|
  {
    if session == [] then s else Author(Work(s, me, session[0].ops).state, me, session[1..])
  }

  /** A transaction that changed nothing emits nothing. */
  function Relay(r: DocState, tx: Tx, order: seq<ClientRange>): DocState {
    if tx.items == [] && tx.kills == [] then r else ApplyUpdate(r, Emitted(tx), order)
  }

  function Follow(s: DocState, me: nat, r: DocState, session: seq<Transaction>): DocState
    decreases |session|
  {
    if session == [] then r
    else
      var tx := Work(s, me, session[0].ops);
      Follow(tx.state, me, Relay(r, tx, session[0].order), session[1..])
  }

  /** Every operation is on a named type, and every time the replica visits its whole accumulated delete set. */
  ghost predicate VisitsEach(s: DocState, me: nat, r: DocState, session: seq<Transaction>)
    decreases |session|
  {
    session == [] ||
    (var tx := Work(s, me, session[0].ops);
     && Named(session[0].ops) && Visits(session[0].order, Merge(r.ds, Emitted(tx).ranges))
     && VisitsEach(tx.state, me, Relay(r, tx, session[0].order), session[1..]))
  }

  /** A transaction that changed nothing needs no update. */
  lemma IdleSyncs(s: DocState, me: nat, r: DocState, ops: seq<Op>)
    requires Synced(s, me, r) && Named(ops) && Work(s, me, ops).items == [] && Work(s, me, ops).kills == []
    ensures Synced(Work(s, me, ops).state, me, r)
  {
    hide Local, UnitReplica, Mirrors, Accounts, Inv, Flows, DoAll;
    Begin(s, me, r);
    DoAllFeeds(Tx(s, [], []), me, r, ops);
    assert Wires([]) == [];
  }

  lemma RelaySyncs(s: DocState, me: nat, r: DocState, ops: seq<Op>, order: seq<ClientRange>)
    requires Synced(s, me, r) && Named(ops) && Visits(order, Merge(r.ds, Emitted(Work(s, me, ops)).ranges))
    ensures var tx := Work(s, me, ops); Synced(tx.state, me, Relay(r, tx, order))
  {
    hide Local, UnitReplica, Mirrors, Accounts, Visits, ApplyUpdate, Merge, Inv, Flows, DoAll;
    var tx := Work(s, me, ops);
    if tx.items == [] && tx.kills == [] {
      IdleSyncs(s, me, r, ops);
    } else {
      Begin(s, me, r);
      DoAllFeeds(Tx(s, [], []), me, r, ops);
      Commit(tx, me, r, order);
    }
  }

  lemma {:induction false} FollowSyncs(s: DocState, me: nat, r: DocState, session: seq<Transaction>)
    requires Synced(s, me, r) && VisitsEach(s, me, r, session)
    ensures Synced(Author(s, me, session), me, Follow(s, me, r, session))
    decreases |session|
  {
    hide Synced, Work, Relay, Visits, Emitted;
    if session != [] {
      var tx := Work(s, me, session[0].ops);
      RelaySyncs(s, me, r, session[0].ops, session[0].order);
      FollowSyncs(tx.state, me, Relay(r, tx, session[0].order), session[1..]);
    }
  }

  /** What is stored and deleted at the author is what is stored and deleted at the replica, list by list. */
  lemma SyncedFlags(s: DocState, me: nat, r: DocState, k: Key)
    requires Synced(s, me, r)
    ensures SameFlags(ChainOf(s.chains, k), s.dead, r.dead)
  {
    hide Placed;
    ListOf(s, me, k);
    assert AllKnown(ChainOf(s.chains, k), s.dead, r.ds, []);
    forall c | c in ChainOf(s.chains, k) ensures c.id in s.dead <==> c.id in r.dead {
      StoreFinds(s, me, c, c.id);
      assert IsDead(r, c.id) <==> c.id in r.dead;
      assert Known(r.ds, [], c.id) <==> InDeleteSet(r.ds, c.id);
    }
  }

  lemma SyncedReads(s: DocState, me: nat, r: DocState, name: Name, key: Name)
    requires Synced(s, me, r)
    ensures ToSlice(r, name) == ToSlice(s, name) && Get(r, name, key) == Get(s, name, key)
  {
    hide Local, UnitReplica, Accounts;
    SyncedFlags(s, me, r, ArrayKey(name));
    SyncedFlags(s, me, r, EntryKey(name, key));
    assert SameList(ChainOf(s.chains, ArrayKey(name)), ChainOf(r.chains, ArrayKey(name)), ArrayKey(name));
    assert SameList(ChainOf(s.chains, EntryKey(name, key)), ChainOf(r.chains, EntryKey(name, key)), EntryKey(name, key));
    VisibleSame(ChainOf(s.chains, ArrayKey(name)), s.dead, r.dead);
    var entries := ChainOf(s.chains, EntryKey(name, key));
    assert entries != [] ==> entries[0] in entries;
  }

  lemma StartSynced(me: nat)
    ensures Synced(EMPTY, me, EMPTY)
  {
  }

  /**
   * Single-author replication: for every session of transactions by one client, a fresh replica
   * that applies the emitted updates in order has the same `ToSlice` for every array and the same
   * `Get` for every key, items inserted and deleted in one transaction included.
   */
  lemma SingleAuthor(me: nat, session: seq<Transaction>, name: Name, key: Name)
    requires VisitsEach(EMPTY, me, EMPTY, session)
    ensures var s, r := Author(EMPTY, me, session), Follow(EMPTY, me, EMPTY, session);
            ToSlice(r, name) == ToSlice(s, name) && Get(r, name, key) == Get(s, name, key)
  {
    hide Synced, VisitsEach, Author, Follow;
    StartSynced(me);
    FollowSyncs(EMPTY, me, EMPTY, session);
    SyncedReads(Author(EMPTY, me, session), me, Follow(EMPTY, me, EMPTY, session), name, key);
  }
}

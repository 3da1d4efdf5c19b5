/**
 * Whole sessions of one author with texts: the transactions of a session type strings between the
 * items of texts, put elements into arrays, set map entries and delete; a replica applies the updates.
 */
module TextSessions {
  import opened Values
  import opened Ids
  import opened Cells
  import opened Integration
  import opened Deletion
  import opened Exactness
  import opened DeleteOrder
  import opened Replicas
  import opened UnitReplicas
  import opened Authoring
  import opened LocalEdits
  import opened Replication
  import opened Snapshots
  import Transactions

  /** The items that a step deletes and records: an entry that is replaced is marked but not recorded. */
  function Killed(s: DocState, e: Step): seq<Cell>
    requires Allowed(s, e)
  {
    match e
    case Kill(k, i) => [ChainOf(s.chains, k)[i]]
    case _ => []
  }

  function KilledAll(s: DocState, me: nat, steps: seq<Step>): seq<Cell>
    requires AllowedAll(s, me, steps)
    decreases |steps|
  {
    if steps == [] then [] else Killed(s, steps[0]) + KilledAll(Take(s, me, steps[0]), me, steps[1..])
  }

  /** The items that the steps store. */
  function NewItems(s: DocState, t: DocState, me: nat): seq<Cell> {
    if |ItemsOf(s.store, me)| <= |ItemsOf(t.store, me)| then ItemsOf(t.store, me)[|ItemsOf(s.store, me)|..] else []
  }

  /** What a transaction with these steps emits. */
  function Emits(s: DocState, me: nat, steps: seq<Step>): Update
    requires AllowedAll(s, me, steps)
  {
    Update(Wires(NewItems(s, TakeAll(s, me, steps), me)), Transactions.DeletedSet(KilledAll(s, me, steps)))
  }

  predicate AllowedSession(s: DocState, me: nat, session: seq<seq<Step>>)
    decreases |session|
  {
    session == [] || (AllowedAll(s, me, session[0]) && AllowedSession(TakeAll(s, me, session[0]), me, session[1..]))
  }

  /** The author's document after a session. */
  function AfterSession(s: DocState, me: nat, session: seq<seq<Step>>): DocState
    requires AllowedSession(s, me, session)
    decreases |session|
  {
    if session == [] then s else AfterSession(TakeAll(s, me, session[0]), me, session[1..])
  }

  /** The replica applies the update of every transaction, each with some order of the known delete set. */
  ghost predicate Applies(s: DocState, me: nat, session: seq<seq<Step>>, rounds: seq<Round>)
    requires AllowedSession(s, me, session)
    decreases |session|
  {
    |rounds| == |session| &&
    (session == [] || (rounds[0].update == Emits(s, me, session[0]) && Applies(TakeAll(s, me, session[0]), me, session[1..], rounds[1..])))
  }

  // What the author records.

  /** The recorded items are stored, and deleted is, of the elements and of the current entries, what was recorded. */
  ghost predicate Records(s: DocState, me: nat, kills: seq<Cell>) {
    KillsStored(s.store, me, kills) && ElementsRecorded(s.store, s.dead, kills) && HeadsRecorded(s.chains, s.dead, kills)
  }

  predicate KillsStored(store: Store, me: nat, kills: seq<Cell>) {
    forall c :: c in kills ==> InStore(store, c) && c.id.client == me
  }

  ghost predicate ElementsRecorded(store: Store, dead: set<Id>, kills: seq<Cell>) {
    forall c :: InStore(store, c) ==> ElementRecorded(c, dead, kills)
  }

  predicate ElementRecorded(c: Cell, dead: set<Id>, kills: seq<Cell>) {
    !IsEntry(c) ==> (c.id in dead <==> c in kills)
  }

  ghost predicate HeadsRecorded(chains: Chains, dead: set<Id>, kills: seq<Cell>) {
    forall k: Key :: HeadRecorded(ChainOf(chains, k), dead, kills, k)
  }

  predicate HeadRecorded(chain: seq<Cell>, dead: set<Id>, kills: seq<Cell>, k: Key) {
    k.sub.Some? && chain != [] ==> (chain[0].id in dead <==> chain[0] in kills)
  }

  /** In the author's document items with the same ID are the same, and what is deleted or listed is stored. */
  ghost predicate Sound(s: DocState, me: nat) {
    && (forall c, d :: InStore(s.store, c) && InStore(s.store, d) && c.id == d.id ==> c == d)
    && (forall id :: id in s.dead ==> IsStart(s.store, id))
    && (forall k: Key :: ListSound(s.store, ChainOf(s.chains, k), me, k))
    && StoreSorted(s.store)
  }

  predicate ListSound(store: Store, chain: seq<Cell>, me: nat, k: Key) {
    forall c :: c in chain ==> InStore(store, c) && c.id.client == me && c.home.Some? && KeyOf(c) == k
  }

  lemma ShadowsSound(s: DocState, f: DocState, me: nat)
    requires Shadows(s, f, me)
    ensures Sound(s, me)
  {
    hide Thins, Mirrors;
    assert Inv(f) && Local(f, me);
    forall c, d | InStore(s.store, c) && InStore(s.store, d) && c.id == d.id ensures c == d {
      FindIsUnique(ItemsOf(s.store, c.id.client), c.id.client, c.id, c);
      FindIsUnique(ItemsOf(s.store, c.id.client), c.id.client, c.id, d);
    }
    forall k: Key ensures ListSound(s.store, ChainOf(s.chains, k), me, k) {
      assert ThinList(ChainOf(s.chains, k), ChainOf(f.chains, k), s.dead, k);
      ListOf(f, me, k);
      forall c | c in ChainOf(s.chains, k) ensures c in ChainOf(f.chains, k) {
        if k.sub.None? { ThinsIn(ChainOf(s.chains, k), ChainOf(f.chains, k), s.dead, c); }
      }
    }
  }

  /** A new item is neither deleted nor recorded. */
  lemma NewIsNew(s: DocState, me: nat, kills: seq<Cell>, c: Cell)
    requires Sound(s, me) && Records(s, me, kills) && c.id == NextId(s, me)
    ensures c.id !in s.dead && c !in kills && forall d :: InStore(s.store, d) ==> d.id != c.id
  {
    forall d | InStore(s.store, d) ensures d.id != c.id {
      if d.id.client == me { SortedBelow(ItemsOf(s.store, me), me, StateOf(s.store, me)); }
    }
    assert c.id in s.dead ==> IsStart(s.store, c.id);
  }

  lemma NewRecords(s: DocState, me: nat, kills: seq<Cell>, c: Cell, t: DocState, key: Key)
    requires Sound(s, me) && Records(s, me, kills) && c.id == NextId(s, me) && key.sub.None? && !IsEntry(c)
    requires t.store == Append(s.store, c) && t.dead == s.dead && forall k: Key :: k != key ==> ChainOf(t.chains, k) == ChainOf(s.chains, k)
    ensures Records(t, me, kills)
  {
    hide Sound, IsEntry;
    NewIsNew(s, me, kills, c);
    StoreMore(s.store, me, kills, c);
    assert ElementRecorded(c, s.dead, kills);
    ElementsMore(s.store, s.dead, kills, c);
    forall k: Key ensures HeadRecorded(ChainOf(t.chains, k), t.dead, kills, k) {
      assert HeadRecorded(ChainOf(s.chains, k), s.dead, kills, k);
    }
  }

  lemma StoreMore(store: Store, me: nat, kills: seq<Cell>, c: Cell)
    requires KillsStored(store, me, kills)
    ensures KillsStored(Append(store, c), me, kills)
  {
  }

  lemma ElementsMore(store: Store, dead: set<Id>, kills: seq<Cell>, c: Cell)
    requires ElementsRecorded(store, dead, kills) && ElementRecorded(c, dead, kills)
    ensures ElementsRecorded(Append(store, c), dead, kills)
  {
    hide ElementRecorded;
    forall d | InStore(Append(store, c), d) ensures ElementRecorded(d, dead, kills) {
      assert d == c || InStore(store, d);
    }
  }

  /** One more item of the store is marked. */
  lemma MarkElements(s: DocState, me: nat, kills: seq<Cell>, e: Cell, more: seq<Cell>)
    requires Sound(s, me) && ElementsRecorded(s.store, s.dead, kills) && InStore(s.store, e)
    requires more == kills + [e] || (IsEntry(e) && more == kills)
    ensures ElementsRecorded(s.store, s.dead + {e.id}, more)
  {
    hide IsEntry, InStore, ListSound, StoreSorted;
    forall d | InStore(s.store, d) ensures ElementRecorded(d, s.dead + {e.id}, more) {
      assert ElementRecorded(d, s.dead, kills);
      if d.id == e.id { assert d == e; }
    }
  }

  /** The heads of the other lists stay as they are. */
  lemma MarkHeads(s: DocState, me: nat, kills: seq<Cell>, e: Cell, more: seq<Cell>, l: Key)
    requires Sound(s, me) && HeadsRecorded(s.chains, s.dead, kills) && InStore(s.store, e) && (more == kills + [e] || more == kills)
    requires more == kills ==> (e.home.Some? && KeyOf(e) != l)
    ensures HeadRecorded(ChainOf(s.chains, l), s.dead + {e.id}, more, l)
  {
    hide InStore, KeyOf, StoreSorted;
    var chain := ChainOf(s.chains, l);
    assert HeadRecorded(chain, s.dead, kills, l) && ListSound(s.store, chain, me, l);
    if chain != [] { assert chain[0] in chain; }
  }

  lemma SetRecords(s: DocState, me: nat, kills: seq<Cell>, name: Name, key: Name, v: Any)
    requires Sound(s, me) && Records(s, me, kills)
    ensures Records(Authoring.Set(Tx(s, [], []), me, name, key, v).state, me, kills)
  {
    hide KeyOf, Sound, InStore, ListSound, ElementsRecorded, KillsStored, HeadsRecorded;
    var k, c, t := EntryKey(name, key), Authoring.Entry(s, me, name, key, v), Authoring.Set(Tx(s, [], []), me, name, key, v).state;
    var entries := ChainOf(s.chains, k);
    NewIsNew(s, me, kills, c);
    StoreMore(s.store, me, kills, c);
    assert ElementRecorded(c, t.dead, kills);
    if entries == [] {
      ElementsMore(s.store, s.dead, kills, c);
      SetHeads(s, me, kills, k, c, t);
    } else {
      HeadSound(s, me, k);
      EntryInKey(entries[0], k);
      MarkElements(s, me, kills, entries[0], kills);
      ElementsMore(s.store, t.dead, kills, c);
      SetHeads(s, me, kills, k, c, t);
    }
  }

  lemma HeadSound(s: DocState, me: nat, k: Key)
    requires Sound(s, me) && ChainOf(s.chains, k) != []
    ensures var c := ChainOf(s.chains, k)[0]; InStore(s.store, c) && c.home.Some? && KeyOf(c) == k
  {
    assert ListSound(s.store, ChainOf(s.chains, k), me, k) && ChainOf(s.chains, k)[0] in ChainOf(s.chains, k);
  }

  lemma SetHeads(s: DocState, me: nat, kills: seq<Cell>, k: Key, c: Cell, t: DocState)
    requires Sound(s, me) && HeadsRecorded(s.chains, s.dead, kills) && c.id !in s.dead && c !in kills
    requires forall d :: InStore(s.store, d) ==> d.id != c.id
    requires var entries := ChainOf(s.chains, k);
             t.chains == s.chains[k := [c]] && t.dead == if entries == [] then s.dead else s.dead + {entries[0].id}
    ensures HeadsRecorded(t.chains, t.dead, kills)
  {
    hide Sound, KeyOf, InStore;
    var entries := ChainOf(s.chains, k);
    if entries != [] { HeadSound(s, me, k); }
    forall l: Key ensures HeadRecorded(ChainOf(t.chains, l), t.dead, kills, l) {
      assert HeadRecorded(ChainOf(s.chains, l), s.dead, kills, l);
      if l != k && entries != [] { MarkHeads(s, me, kills, entries[0], kills, l); }
    }
  }

  lemma EntryInKey(c: Cell, k: Key)
    requires c.home.Some? && KeyOf(c) == k && k.sub.Some?
    ensures IsEntry(c)
  {
  }

  lemma KillRecords(s: DocState, me: nat, kills: seq<Cell>, k: Key, i: nat)
    requires Sound(s, me) && Records(s, me, kills) && i < |ChainOf(s.chains, k)|
    ensures var c := ChainOf(s.chains, k)[i]; Records(s.(dead := s.dead + {c.id}), me, kills + [c])
  {
    var c := ChainOf(s.chains, k)[i];
    assert InStore(s.store, c) && c.id.client == me by {
      assert ListSound(s.store, ChainOf(s.chains, k), me, k) && c in ChainOf(s.chains, k);
    }
    hide Sound, InStore, ElementsRecorded, HeadsRecorded, ElementRecorded;
    MarkElements(s, me, kills, c, kills + [c]);
    KillHeads(s, me, kills, c);
  }

  lemma KillHeads(s: DocState, me: nat, kills: seq<Cell>, c: Cell)
    requires Sound(s, me) && HeadsRecorded(s.chains, s.dead, kills) && InStore(s.store, c)
    ensures HeadsRecorded(s.chains, s.dead + {c.id}, kills + [c])
  {
    hide Sound, InStore, HeadRecorded;
    forall l: Key ensures HeadRecorded(ChainOf(s.chains, l), s.dead + {c.id}, kills + [c], l) {
      MarkHeads(s, me, kills, c, kills + [c], l);
    }
  }

  lemma TakeRecords(s: DocState, me: nat, kills: seq<Cell>, e: Step)
    requires Sound(s, me) && Records(s, me, kills) && Allowed(s, e)
    ensures Records(Take(s, me, e), me, kills + Killed(s, e))
  {
    hide Records, Sound;
    assert kills + [] == kills;
    match e {
      case Type(name, p, text) => NewRecords(s, me, kills, Snapshots.NewItem(s, me, name, p, Str(text)), Take(s, me, e), ArrayKey(name));
      case Put(name, p, value) => NewRecords(s, me, kills, Snapshots.NewItem(s, me, name, p, Val(value)), Take(s, me, e), ArrayKey(name));
      case SetEntry(name, key, value) => SetRecords(s, me, kills, name, key, value);
      case Kill(k, i) => KillRecords(s, me, kills, k, i);
    }
  }

  /** A step stores at most one item, at the end. */
  lemma TakeStores(s: DocState, me: nat, e: Step)
    requires Allowed(s, e)
    ensures ItemsOf(s.store, me) <= ItemsOf(Take(s, me, e).store, me)
  {
  }

  lemma {:induction false} TakeAllRecords(s: DocState, f: DocState, me: nat, kills: seq<Cell>, steps: seq<Step>) returns (g: DocState)
    requires Shadows(s, f, me) && Records(s, me, kills) && AllowedAll(s, me, steps)
    ensures var t := TakeAll(s, me, steps);
            Shadows(t, g, me) && Records(t, me, kills + KilledAll(s, me, steps)) && ItemsOf(s.store, me) <= ItemsOf(t.store, me)
    decreases |steps|
  {
    hide Shadows, Take, Allowed, Records, Sound, Killed;
    if steps == [] {
      g := f;
      assert kills + [] == kills;
    } else {
      ShadowsSound(s, f, me);
      g := TakeShadows(s, f, me, steps[0]);
      TakeRecords(s, me, kills, steps[0]);
      TakeStores(s, me, steps[0]);
      var t := Take(s, me, steps[0]);
      g := TakeAllRecords(t, g, me, kills + Killed(s, steps[0]), steps[1..]);
      assert kills + Killed(s, steps[0]) + KilledAll(t, me, steps[1..]) == kills + (Killed(s, steps[0]) + KilledAll(t, me, steps[1..]));
    }
  }

  // What the replica makes of it.

  function RangeOf(c: Cell): ClientRange {
    ClientRange(c.id.client, Range(c.id.clock, c.len))
  }

  /** Every range is that of a whole recorded item. */
  ghost predicate WholeRanges(ds: DeleteSet, kills: seq<Cell>) {
    forall p :: InDs(ds, p) ==> IsWhole(p, kills)
  }

  predicate IsWhole(p: ClientRange, kills: seq<Cell>) {
    exists c :: c in kills && p == RangeOf(c)
  }

  lemma {:induction false} DeletedWhole(cells: seq<Cell>)
    ensures WholeRanges(Transactions.DeletedSet(cells), cells)
  {
    if cells != [] {
      var front, last := cells[..|cells| - 1], cells[|cells| - 1];
      DeletedWhole(front);
      assert cells == front + [last];
      forall p | InDs(Transactions.DeletedSet(cells), p) ensures IsWhole(p, cells) {
        if InDs(Transactions.DeletedSet(front), p) {
          assert IsWhole(p, front);
        } else {
          assert p == RangeOf(last);
        }
      }
    }
  }

  /** The delete set has the ranges of the recorded items, and covers their clocks. */
  ghost predicate Knows(ds: DeleteSet, kills: seq<Cell>) {
    WholeRanges(ds, kills) && forall id :: InDeleteSet(ds, id) <==> Transactions.SomeCovers(kills, id)
  }

  lemma KnowsMore(ds: DeleteSet, kills: seq<Cell>, more: seq<Cell>)
    requires Knows(ds, kills)
    ensures Knows(Merge(ds, Transactions.DeletedSet(more)), kills + more)
  {
    hide Transactions.DeletedSet, InDs, InDeleteSet, Merge, Covers, RangeOf;
    var all := Merge(ds, Transactions.DeletedSet(more));
    MergeCovers(ds, Transactions.DeletedSet(more));
    DeletedWhole(more);
    forall p | InDs(all, p) ensures IsWhole(p, kills + more) {
      assert InDs(ds, p) ==> IsWhole(p, kills);
      assert InDs(Transactions.DeletedSet(more), p) ==> IsWhole(p, more);
    }
    forall id ensures InDeleteSet(all, id) <==> Transactions.SomeCovers(kills + more, id) {
      Transactions.DeletedSetIs(more, id);
    }
  }

  /** Two stored items of one client do not overlap. */
  lemma RangesApart(items: seq<Cell>, me: nat, c: Cell, d: Cell)
    requires Sorted(items, me) && c in items && d in items
    ensures !EndsInside(RangeOf(c), RangeOf(d))
  {
    var i :| 0 <= i < |items| && items[i] == c;
    var j :| 0 <= j < |items| && items[j] == d;
  }

  /** No range of whole items ends inside another one. */
  lemma WholeResumes(store: Store, me: nat, ds: DeleteSet, kills: seq<Cell>)
    requires StoreSorted(store) && KillsStored(store, me, kills) && WholeRanges(ds, kills)
    ensures Resumes(ds)
  {
    hide Sorted, EndsInside, InDs, InDeleteSet;
    forall p, q | InDs(ds, p) && InDs(ds, q) ensures !EndsInside(p, q) {
      assert IsWhole(p, kills) && IsWhole(q, kills);
      var c :| c in kills && p == RangeOf(c);
      var d :| d in kills && q == RangeOf(d);
      RangesApart(ItemsOf(store, me), me, c, d);
    }
  }

  /** No item reaches across the boundaries of another one. */
  lemma WholeBounded(u: DocState, c: Cell)
    requires Inv(u) && InStore(u.store, c)
    ensures Bounded(u, RangeOf(c))
  {
    var items, lo, hi := ItemsOf(u.store, c.id.client), c.id, Id(c.id.client, End(c));
    FindIsUnique(items, c.id.client, lo, c);
    if Held(u, hi) {
      var d := Lookup(u.store, hi).value;
      var i :| 0 <= i < |items| && items[i] == c;
      var j :| 0 <= j < |items| && items[j] == d;
      assert Sorted(items, c.id.client);
    }
  }

  lemma {:induction false} NothingSplit(u: DocState, rs: seq<ClientRange>)
    requires forall p :: p in rs ==> Bounded(u, p)
    ensures SameItems(ApplyAll(u, rs), u)
    decreases |rs|
  {
    hide Bounded;
    if rs != [] {
      var p := rs[0];
      BoundedWhole(u, p);
      var t := ApplyRange(u, p.client, p.range);
      forall q | q in rs[1..] ensures Bounded(t, q) { SameBounded(u, t, q); }
      NothingSplit(t, rs[1..]);
    }
  }

  lemma BoundedWhole(u: DocState, p: ClientRange)
    requires Bounded(u, p)
    ensures SameItems(ApplyRange(u, p.client, p.range), u)
  {
    SplitCut(u, Id(p.client, p.range.clock));
    SplitCut(u, Id(p.client, LastOf(p.range)));
  }

  lemma SameBounded(u: DocState, t: DocState, q: ClientRange)
    requires SameItems(u, t) && Bounded(u, q)
    ensures Bounded(t, q)
  {
  }

  lemma {:induction false} LandsSame(s: DocState, t: DocState, items: seq<Cell>)
    requires SameItems(s, t) && Lands(s, items)
    ensures Lands(t, items) && SameItems(Deliver(s, items), Deliver(t, items))
    decreases |items|
  {
    hide Find, Link, Append, BornDead;
    if items != [] { LandsSame(Receive(s, items[0]), Receive(t, items[0]), items[1..]); }
  }

  /** The replica has the items of the author, unsplit, and deleted of them what was recorded. */
  ghost predicate InStep(s: DocState, f: DocState, me: nat, kills: seq<Cell>, t: DocState) {
    Shadows(s, f, me) && Records(s, me, kills) && Fed(t) && Settled(t) && SameItems(t, Restored(s, me)) && Knows(t.ds, kills)
  }

  /** The snapshot grows by what a transaction stores. */
  lemma RestoredMore(s: DocState, t: DocState, g: DocState, me: nat)
    requires Shadows(t, g, me) && ItemsOf(s.store, me) <= ItemsOf(t.store, me)
    ensures var more := Wires(NewItems(s, t, me));
            Lands(Restored(s, me), more) && Restored(t, me) == Deliver(Restored(s, me), more) && Restored(t, me).store == t.store
  {
    hide Deliver, Lands, Local, ThinList;
    var items, all := ItemsOf(s.store, me), ItemsOf(t.store, me);
    var more := NewItems(s, t, me);
    assert all == items + more && Wires(all) == Wires(items) + Wires(more);
    LandsConcat(EMPTY, Wires(items), Wires(more));
    DeliverConcat(EMPTY, Wires(items), Wires(more));
  }

  lemma RoundInStep(s: DocState, f: DocState, me: nat, kills: seq<Cell>, t: DocState, steps: seq<Step>, r: Round) returns (g: DocState)
    requires InStep(s, f, me, kills, t) && AllowedAll(s, me, steps) && r.update == Emits(s, me, steps)
    requires Visits(r.order, Merge(t.ds, r.update.ranges))
    ensures InStep(TakeAll(s, me, steps), g, me, kills + KilledAll(s, me, steps), ApplyUpdate(t, r.update, r.order))
    ensures ApplyUpdate(t, r.update, r.order).ds == Merge(t.ds, r.update.ranges)
  {
    hide Shadows, Records, Fed, Settled, Knows, Lands, Deliver, Restored, ApplyAll, Visits, Merge, Resumes, NewItems, Inv;
    hide Transactions.DeletedSet, KilledAll, AllowedAll, TakeAll;
    var s', more, kills' := TakeAll(s, me, steps), KilledAll(s, me, steps), kills + KilledAll(s, me, steps);
    g := TakeAllRecords(s, f, me, kills, steps);
    RestoredMore(s, s', g, me);
    KnowsMore(t.ds, kills, more);
    var ds := Merge(t.ds, r.update.ranges);
    var t' := t.(ds := ds);
    LandsSame(Restored(s, me), t', r.update.items);
    var u := Deliver(t', r.update.items);
    MergeCovers(t.ds, r.update.ranges);
    FedMore(t, ds);
    DeliverKeepsFed(t', r.update.items);
    FedInv(u);
    RecordsStored(s', me, kills');
    KnowsWhole(ds, kills');
    WholeResumes(u.store, me, ds, kills') by { InvSorted(u); }
    UpdateSettles(t, r.update, r.order);
    VisitsBounded(u, me, r.order, ds, kills');
    NothingSplit(u, r.order);
  }

  lemma FedInv(u: DocState)
    requires Fed(u)
    ensures Inv(u)
  {
  }

  lemma InvSorted(u: DocState)
    requires Inv(u)
    ensures StoreSorted(u.store)
  {
  }

  lemma RecordsStored(s: DocState, me: nat, kills: seq<Cell>)
    requires Records(s, me, kills)
    ensures KillsStored(s.store, me, kills)
  {
  }

  lemma KnowsWhole(ds: DeleteSet, kills: seq<Cell>)
    requires Knows(ds, kills)
    ensures WholeRanges(ds, kills)
  {
  }

  lemma VisitsBounded(u: DocState, me: nat, order: seq<ClientRange>, ds: DeleteSet, kills: seq<Cell>)
    requires Inv(u) && KillsStored(u.store, me, kills) && WholeRanges(ds, kills) && Visits(order, ds)
    ensures forall p :: p in order ==> Bounded(u, p)
  {
    hide Inv, Bounded;
    forall p | p in order ensures Bounded(u, p) {
      assert InDs(ds, p) && IsWhole(p, kills);
      var c :| c in kills && p == RangeOf(c);
      WholeBounded(u, c);
    }
  }

  lemma {:induction false} SessionInStep(s: DocState, f: DocState, me: nat, kills: seq<Cell>, t: DocState, session: seq<seq<Step>>, rounds: seq<Round>)
    returns (g: DocState, all: seq<Cell>)
    requires InStep(s, f, me, kills, t) && AllowedSession(s, me, session) && Applies(s, me, session, rounds) && VisitsAll(t.ds, rounds)
    ensures InStep(AfterSession(s, me, session), g, me, all, Run(t, rounds))
    decreases |session|
  {
    hide InStep, Emits, ApplyUpdate, Visits, Merge, AllowedAll, TakeAll, KilledAll;
    if session == [] {
      g, all := f, kills;
    } else {
      var u := ApplyUpdate(t, rounds[0].update, rounds[0].order);
      g := RoundInStep(s, f, me, kills, t, session[0], rounds[0]);
      g, all := SessionInStep(TakeAll(s, me, session[0]), g, me, kills + KilledAll(s, me, session[0]), u, session[1..], rounds[1..]);
    }
  }

  lemma NothingInStep(me: nat)
    ensures InStep(EMPTY, EMPTY, me, [], EMPTY)
  {
    StartShadows(me);
    assert Wires([]) == [];
  }

  /** On the replica a stored item is marked exactly if it is recorded. */
  lemma MarkedIsRecorded(s: DocState, f: DocState, me: nat, kills: seq<Cell>, t: DocState, c: Cell)
    requires InStep(s, f, me, kills, t) && InStore(s.store, c) && c.id.client == me && !c.content.Gone? && t.store == s.store
    ensures c.id in t.dead <==> c in kills
  {
    hide Shadows, Records, SameItems;
    FedInv(t);
    var items := ItemsOf(t.store, me);
    assert Sorted(items, me) by { InvSorted(t); }
    FindIsUnique(items, me, c.id, c);
    assert c.id in t.dead <==> IsDead(t, c.id);
    assert IsDead(t, c.id) <==> InDeleteSet(t.ds, c.id);
    RecordsStored(s, me, kills);
    if d :| d in kills && Covers(d, c.id) {
      FindIsUnique(items, me, c.id, d);
    }
  }

  lemma ShadowList(s: DocState, f: DocState, me: nat, kills: seq<Cell>, t: DocState, k: Key)
    requires InStep(s, f, me, kills, t)
    ensures t.store == s.store && ThinList(ChainOf(s.chains, k), ChainOf(f.chains, k), s.dead, k)
    ensures SameList(ChainOf(f.chains, k), ChainOf(t.chains, k), k)
    ensures forall c :: c in ChainOf(f.chains, k) ==>
              InStore(s.store, c) && c.id.client == me && !c.content.Gone? && c.home.Some? && KeyOf(c) == k
  {
    hide Records, Fed, Settled, Knows, Thins;
    ListOf(f, me, k);
  }

  /** The list of a text or an array is marked on the replica as it is at the author. */
  lemma ListMarked(s: DocState, f: DocState, me: nat, kills: seq<Cell>, t: DocState, k: Key)
    requires InStep(s, f, me, kills, t) && k.sub.None?
    ensures Visible(ChainOf(t.chains, k), t.dead) == Visible(ChainOf(s.chains, k), s.dead)
  {
    hide InStep, Thins, IsEntry;
    ShadowList(s, f, me, kills, t, k);
    var full := ChainOf(f.chains, k);
    assert ElementsRecorded(s.store, s.dead, kills) by { StepRecords(s, f, me, kills, t); }
    forall c | c in full ensures c.id in t.dead <==> c.id in s.dead {
      MarkedIsRecorded(s, f, me, kills, t, c);
      assert ElementRecorded(c, s.dead, kills);
      ElementInKey(c, k);
    }
    VisibleSame(full, t.dead, s.dead);
    ThinsShows(ChainOf(s.chains, k), full, s.dead);
  }

  lemma StepRecords(s: DocState, f: DocState, me: nat, kills: seq<Cell>, t: DocState)
    requires InStep(s, f, me, kills, t)
    ensures Records(s, me, kills)
  {
  }

  lemma ElementInKey(c: Cell, k: Key)
    requires c.home.Some? && KeyOf(c) == k && k.sub.None?
    ensures !IsEntry(c)
  {
  }

  lemma HeadMarked(s: DocState, f: DocState, me: nat, kills: seq<Cell>, t: DocState, name: Name, key: Name)
    requires InStep(s, f, me, kills, t)
    ensures Get(t, name, key) == Get(s, name, key)
  {
    hide InStep;
    var k := EntryKey(name, key);
    ShadowList(s, f, me, kills, t, k);
    StepRecords(s, f, me, kills, t);
    var chain := ChainOf(s.chains, k);
    assert HeadRecorded(chain, s.dead, kills, k);
    if chain != [] {
      assert chain[0] in ChainOf(f.chains, k);
      MarkedIsRecorded(s, f, me, kills, t, chain[0]);
    }
  }

  /**
   * Replication of whole sessions, with texts. One author, in any number of transactions, types
   * strings between the items of texts, which unlinks the deleted items there, puts elements into
   * arrays, sets map entries and deletes; a fresh replica applies the update of every transaction in
   * order, each with any order of the deletions known by then. Afterwards every text and every array
   * shows the same items on both, and every key has the same value.
   */
  lemma TextSession(me: nat, session: seq<seq<Step>>, rounds: seq<Round>, name: Name, key: Name)
    requires AllowedSession(EMPTY, me, session) && Applies(EMPTY, me, session, rounds) && VisitsAll(map[], rounds)
    ensures var s, t := AfterSession(EMPTY, me, session), Run(EMPTY, rounds);
            && Visible(ChainOf(t.chains, ArrayKey(name)), t.dead) == Visible(ChainOf(s.chains, ArrayKey(name)), s.dead)
            && Get(t, name, key) == Get(s, name, key)
  {
    hide InStep, Run, AfterSession, AllowedSession, Applies, VisitsAll, Visible, Get;
    NothingInStep(me);
    var f, kills := SessionInStep(EMPTY, EMPTY, me, [], EMPTY, session, rounds);
    ListMarked(AfterSession(EMPTY, me, session), f, me, kills, Run(EMPTY, rounds), ArrayKey(name));
    HeadMarked(AfterSession(EMPTY, me, session), f, me, kills, Run(EMPTY, rounds), name, key);
  }
}

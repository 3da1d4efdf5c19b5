/**
 * A snapshot or a diff of several authors holds its items by descending client. An item whose origin
 * is of a smaller client comes before its origin, and an item without its origin is never linked.
 */
module SentOrder {
  import opened Wrappers
  import opened Values
  import opened Ids
  import opened Cells
  import opened Integration
  import opened Convergence
  import opened Varints
  import opened StateVectors
  import opened UnitReplicas
  import opened Authoring
  import opened LocalEdits
  import opened Tiling
  import opened Replicas
  import opened Replication
  import opened DiffSync
  import Updates
  import opened Encoding
  import opened Syncing
  import opened DiffBytes
  import opened SnapshotBytes
  import opened MovedText

  /** What is sent of a document, in the order in which it is decoded. */
  ghost function Sent(store: Store): seq<Cell> {
    Wires(Diff(store, map[], SortDesc(store.Keys)))
  }

  /** No item has an origin of a smaller client. */
  ghost predicate OriginsDescend(store: Store) {
    forall c :: InStore(store, c) ==> OriginNotSmaller(c)
  }

  predicate OriginNotSmaller(c: Cell) {
    c.left.Some? ==> c.left.value.client >= c.id.client
  }

  // What a causal delivery leaves in the store.

  /** The stored items are those that arrived, with their parents; origins are stored elements, earlier if of the same client. */
  ghost predicate Holds(s: DocState, items: seq<Cell>) {
    && (forall c :: InStore(s.store, c) ==> c.home.Some? && Wire(c) in items && OriginStored(s.store, c))
    && (forall x :: x in items ==> IsStored(s.store, x))
  }

  predicate IsStored(store: Store, x: Cell) {
    exists c :: c in ItemsOf(store, x.id.client) && c.id == x.id && Wire(c) == x
  }

  predicate OriginStored(store: Store, c: Cell) {
    c.left.Some? ==>
      var o := Lookup(store, c.left.value);
      o.Some? && !IsEntry(o.value) && (o.value.id.client == c.id.client ==> End(o.value) <= c.id.clock)
  }

  predicate NamedAll(items: seq<Cell>) {
    forall x :: x in items ==> x.home != Some([])
  }

  /** What an item becomes when it is received. */
  lemma Becomes(s: DocState, x: Cell)
    requires Inv(s) && Enabled(s, x) && x.home != Some([])
    ensures var c := x.(home := Resolve(s.store, x));
            && c.home.Some? && Wire(c) == x && Receive(s, x).store == Append(s.store, c) && OriginStored(Append(s.store, c), c)
  {
    hide Find;
    var c := x.(home := Resolve(s.store, x));
    if x.left.Some? {
      LookupAfterAppend(s.store, c, x.left.value);
      SortedBelow(ItemsOf(s.store, x.id.client), x.id.client, StateOf(s.store, x.id.client));
    }
  }

  lemma OriginStays(store: Store, c: Cell, d: Cell)
    requires OriginStored(store, d)
    ensures OriginStored(Append(store, c), d)
  {
    hide Find;
    if d.left.Some? { LookupAfterAppend(store, c, d.left.value); }
  }

  lemma StoredStays(store: Store, c: Cell, y: Cell)
    requires IsStored(store, y)
    ensures IsStored(Append(store, c), y)
  {
    hide Wire;
    var d :| d in ItemsOf(store, y.id.client) && d.id == y.id && Wire(d) == y;
    assert d in ItemsOf(Append(store, c), y.id.client);
  }

  lemma ReceiveHolds(s: DocState, items: seq<Cell>, x: Cell)
    requires Inv(s) && Holds(s, items) && Enabled(s, x) && x.home != Some([])
    ensures Holds(Receive(s, x), items + [x])
  {
    hide Inv, Receive, Enabled, OriginStored, IsStored, Wire;
    var c, t := x.(home := Resolve(s.store, x)), Receive(s, x);
    Becomes(s, x);
    forall d | InStore(t.store, d) ensures d.home.Some? && Wire(d) in items + [x] && OriginStored(t.store, d) {
      if d != c {
        assert InStore(s.store, d);
        OriginStays(s.store, c, d);
      }
    }
    forall y | y in items + [x] ensures IsStored(t.store, y) {
      if y in items {
        StoredStays(s.store, c, y);
      } else {
        NewStored(s.store, c);
      }
    }
  }

  lemma NewStored(store: Store, c: Cell)
    ensures IsStored(Append(store, c), Wire(c))
  {
    assert c in ItemsOf(Append(store, c), c.id.client);
  }

  lemma {:induction false} DeliverHolds(s: DocState, before: seq<Cell>, items: seq<Cell>)
    requires Inv(s) && Holds(s, before) && Flows(s, items) && NamedAll(items)
    ensures Inv(Deliver(s, items)) && Holds(Deliver(s, items), before + items)
    decreases |items|
  {
    hide Inv, Holds, Receive, Enabled, Integration.Fits;
    if items == [] {
      assert before + items == before;
    } else {
      var x := items[0];
      ReceiveHolds(s, before, x);
      EnabledFits(s, x);
      ReceiveKeepsInv(s, x);
      DeliverHolds(Receive(s, x), before + [x], items[1..]);
      assert before + [x] + items[1..] == before + items;
    }
  }

  // The order of what is sent.

  /** By descending client, and of one client by clock. */
  ghost predicate Ordered(ws: seq<Cell>) {
    forall i, j :: 0 <= i < j < |ws| ==> Earlier(ws[i], ws[j])
  }

  predicate Earlier(a: Cell, b: Cell) {
    a.id.client > b.id.client || (a.id.client == b.id.client && End(a) <= b.id.clock)
  }

  /** Of one client what ends after the state is sent. */
  lemma RestHas(items: seq<Cell>, client: nat, state: nat)
    requires Sorted(items, client)
    ensures forall c :: c in Rest(items, state) <==> c in items && End(c) > state
  {
    var k := FirstAfter(items, state);
    forall i | k <= i < |items| ensures End(items[i]) > state {
      assert k < i ==> End(items[k]) <= items[i].id.clock;
    }
    forall c | c in items && End(c) > state ensures c in items[k..] {
      var i :| 0 <= i < |items| && items[i] == c;
      assert items[k..][i - k] == c;
    }
  }

  lemma RestOrdered(items: seq<Cell>, client: nat, state: nat)
    requires Sorted(items, client)
    ensures Ordered(Rest(items, state)) && forall c :: c in Rest(items, state) ==> c.id.client == client
  {
    var k := FirstAfter(items, state);
    forall i, j | 0 <= i < j < |items[k..]| ensures Earlier(items[k..][i], items[k..][j]) {
      assert items[k..][i] == items[k + i] && items[k..][j] == items[k + j];
    }
  }

  lemma {:induction false} DiffOrdered(store: Store, sv: map<nat, nat>, clients: seq<nat>)
    requires StoreSorted(store) && Descends(clients)
    ensures var ws := Diff(store, sv, clients);
            && Ordered(ws) && (forall c :: c in ws <==> c.id.client in clients && InStore(store, c) && End(c) > StateIn(sv, c.id.client))
    decreases |clients|
  {
    hide Rest, End, Sorted;
    if clients != [] {
      var d, rest := clients[0], clients[1..];
      var state := StateIn(sv, d);
      var items, ws := Rest(ItemsOf(store, d), state), Diff(store, sv, rest);
      DiffOrdered(store, sv, rest);
      SortedOf(store, d);
      RestHas(ItemsOf(store, d), d, state);
      RestOrdered(ItemsOf(store, d), d, state);
      assert clients == [d] + rest;
      forall i, j | 0 <= i < j < |items + ws| ensures Earlier((items + ws)[i], (items + ws)[j]) {
        if i < |items| <= j {
          assert items[i] in items && ws[j - |items|] in ws && ws[j - |items|].id.client in rest;
        }
      }
    }
  }

  lemma SortedOf(store: Store, d: nat)
    requires StoreSorted(store)
    ensures Sorted(ItemsOf(store, d), d)
  {
  }

  // If every origin comes first.

  lemma {:induction false} FlowsDistinct(s: DocState, items: seq<Cell>, i: nat, j: nat)
    requires Flows(s, items) && i < j < |items|
    ensures items[i] != items[j] && Lookup(s.store, items[j].id).None?
    decreases |items|
  {
    hide Receive, Enabled;
    var x, t := items[0], Receive(s, items[0]);
    FlowsNew(s, items, j);
    NowHeld(s, x);
    if i > 0 {
      FlowsDistinct(t, items[1..], i - 1, j - 1);
    } else {
      FlowsNew(t, items[1..], j - 1);
    }
  }

  lemma NowHeld(s: DocState, x: Cell)
    requires Enabled(s, x)
    ensures Lookup(Receive(s, x).store, x.id).Some?
  {
    hide Find, Link;
    LookupAfterAppend(s.store, x.(home := Resolve(s.store, x)), x.id);
  }

  lemma {:induction false} FlowsNew(s: DocState, items: seq<Cell>, j: nat)
    requires Flows(s, items) && j < |items|
    ensures Lookup(s.store, items[j].id).None?
    decreases |items|
  {
    hide Find, Link;
    if j > 0 {
      FlowsNew(Receive(s, items[0]), items[1..], j - 1);
      LookupAfterAppend(s.store, items[0].(home := Resolve(s.store, items[0])), items[j].id);
    }
  }

  /** Sequences without repetition and with the same elements hold the same. */
  lemma SameMultiset(a: seq<Cell>, b: seq<Cell>)
    requires (forall i, j :: 0 <= i < j < |a| ==> a[i] != a[j]) && (forall i, j :: 0 <= i < j < |b| ==> b[i] != b[j])
    requires forall x :: x in a <==> x in b
    ensures multiset(a) == multiset(b)
  {
    forall x ensures multiset(a)[x] == multiset(b)[x] {
      AtMostOnce(a, x);
      AtMostOnce(b, x);
    }
  }

  lemma {:induction false} AtMostOnce(a: seq<Cell>, x: Cell)
    requires forall i, j :: 0 <= i < j < |a| ==> a[i] != a[j]
    ensures multiset(a)[x] == if x in a then 1 else 0
  {
    if a != [] {
      AtMostOnce(a[1..], x);
      assert a == [a[0]] + a[1..];
      assert forall j :: 0 <= j < |a[1..]| ==> a[1..][j] == a[j + 1];
    }
  }

  /** Of the items that are sent, the one at an index with what is stored of it. */
  lemma SentAt(d: DocState, j: nat) returns (c: Cell)
    requires Inv(d) && j < |Sent(d.store)|
    ensures InStore(d.store, c) && Wire(c) == Sent(d.store)[j]
  {
    var cells := Diff(d.store, map[], SortDesc(d.store.Keys));
    InvStore(d);
    SortDescIs(d.store.Keys);
    DiffOrdered(d.store, map[], SortDesc(d.store.Keys));
    c := cells[j];
    assert c in cells;
  }

  lemma CellSent(d: DocState, c: Cell)
    requires Inv(d) && InStore(d.store, c)
    ensures Wire(c) in Sent(d.store)
  {
    hide Wire, Inv, Diff, SortDesc;
    var cells := Diff(d.store, map[], SortDesc(d.store.Keys));
    CellInDiff(d, c);
    var k :| 0 <= k < |cells| && cells[k] == c;
    assert Wires(cells)[k] == Wire(c);
  }

  lemma CellInDiff(d: DocState, c: Cell)
    requires Inv(d) && InStore(d.store, c)
    ensures c in Diff(d.store, map[], SortDesc(d.store.Keys))
  {
    hide Inv, Diff, SortDesc, InStore;
    InvStore(d);
    SortDescIs(d.store.Keys);
    DiffOrdered(d.store, map[], SortDesc(d.store.Keys));
    InKeys(d.store, c);
    StoredSized(d, c);
  }

  lemma InKeys(store: Store, c: Cell)
    requires InStore(store, c)
    ensures c.id.client in store.Keys
  {
  }

  lemma SentHas(items: seq<Cell>, d: DocState, x: Cell)
    requires Inv(d) && Holds(d, items)
    ensures x in Sent(d.store) <==> x in items
  {
    hide Inv, Wire, OriginStored, Sent;
    if x in items {
      assert IsStored(d.store, x);
      var c :| c in ItemsOf(d.store, x.id.client) && c.id == x.id && Wire(c) == x;
      CellSent(d, c);
    }
    if x in Sent(d.store) {
      var k :| 0 <= k < |Sent(d.store)| && Sent(d.store)[k] == x;
      var c := SentAt(d, k);
    }
  }

  lemma SentOrdered(d: DocState)
    requires Inv(d)
    ensures var ws := Sent(d.store); Ordered(ws) && forall i, j :: 0 <= i < j < |ws| ==> ws[i] != ws[j]
  {
    hide Inv, Wire, Diff;
    var ws, cells := Sent(d.store), Diff(d.store, map[], SortDesc(d.store.Keys));
    InvStore(d);
    SortDescIs(d.store.Keys);
    DiffOrdered(d.store, map[], SortDesc(d.store.Keys));
    forall i, j | 0 <= i < j < |ws| ensures Earlier(ws[i], ws[j]) && ws[i] != ws[j] {
      assert Earlier(cells[i], cells[j]) && cells[i] in cells;
      EarlierWires(d, cells[i], cells[j]);
    }
  }

  lemma EarlierWires(d: DocState, a: Cell, b: Cell)
    requires Inv(d) && InStore(d.store, a) && Earlier(a, b)
    ensures Earlier(Wire(a), Wire(b)) && Wire(a) != Wire(b)
  {
    StoredSized(d, a);
  }

  /** What is sent is what arrived, in another order. */
  lemma SentIsSame(items: seq<Cell>, d: DocState)
    requires Flows(EMPTY, items) && Inv(d) && Holds(d, items)
    ensures multiset(Sent(d.store)) == multiset(items)
  {
    hide Inv, Flows, Holds, Sent;
    var ws := Sent(d.store);
    SentOrdered(d);
    forall x ensures x in ws <==> x in items { SentHas(items, d, x); }
    forall i, j | 0 <= i < j < |items| ensures items[i] != items[j] { FlowsDistinct(EMPTY, items, i, j); }
    SameMultiset(ws, items);
  }

  lemma InvStore(d: DocState)
    requires Inv(d)
    ensures StoreSorted(d.store)
  {
  }

  lemma StoredSized(d: DocState, c: Cell)
    requires Inv(d) && InStore(d.store, c)
    ensures c.len >= 1
  {
  }

  lemma WireKeeps(c: Cell)
    ensures Wire(c).id == c.id && Wire(c).len == c.len && Wire(c).left == c.left && Wire(c).content == c.content && Wire(c).sub == c.sub
  {
  }

  /** The origin of an item is sent before it, if it is not of a smaller client. */
  lemma OriginSentBefore(items: seq<Cell>, d: DocState, j: nat)
    requires Inv(d) && Holds(d, items) && OriginsDescend(d.store) && j < |Sent(d.store)|
    ensures OriginIn(Sent(d.store)[..j], Sent(d.store)[j])
  {
    hide Inv, Wire, IsEntry, Find;
    var ws := Sent(d.store);
    var c := SentAt(d, j);
    WireKeeps(c);
    SentOrdered(d);
    if c.left.Some? {
      assert OriginStored(d.store, c) && OriginNotSmaller(c);
      var left := c.left.value;
      var o := Lookup(d.store, left).value;
      OriginSent(d, left, o, j);
    }
  }

  /** A stored element of an earlier clock, or of a greater client, is sent before. */
  lemma SentEarlier(d: DocState, o: Cell, j: nat) returns (k: nat)
    requires Inv(d) && InStore(d.store, o) && j < |Sent(d.store)| && Earlier(o, Sent(d.store)[j])
    ensures k < j && Sent(d.store)[k] == Wire(o)
  {
    hide Inv, Wire, Sent;
    var ws := Sent(d.store);
    SentOrdered(d);
    CellSent(d, o);
    WireKeeps(o);
    StoredSized(d, o);
    k :| 0 <= k < |ws| && ws[k] == Wire(o);
    var e := SentAt(d, j);
    WireKeeps(e);
    StoredSized(d, e);
    EarlierAt(ws, j, k);
  }

  lemma EarlierAt(ws: seq<Cell>, j: nat, k: nat)
    requires Ordered(ws) && j < |ws| && k < |ws|
    ensures j < k ==> Earlier(ws[j], ws[k])
  {
  }

  /** The first item before this one that has the origin is the stored element. */
  lemma OriginSent(d: DocState, left: Id, o: Cell, j: nat)
    requires Inv(d) && j < |Sent(d.store)| && Lookup(d.store, left) == Some(o) && !IsEntry(o) && Earlier(o, Sent(d.store)[j])
    ensures var before := Sent(d.store)[..j]; IndexOf(before, left) < |before| && !IsEntry(before[IndexOf(before, left)])
  {
    hide Inv, Wire, Find, IndexOf, Sent, IsEntry;
    assert InStore(d.store, o);
    var k := SentEarlier(d, o, j);
    WireKeeps(o);
    var before := Sent(d.store)[..j];
    assert before[k] == Wire(o) && Covers(before[k], left);
    var i := IndexOf(before, left);
    var c := SentAt(d, i);
    WireKeeps(c);
    OnlyOne(d, left, c, o);
    EntryWire(c);
  }

  lemma OnlyOne(d: DocState, id: Id, c: Cell, o: Cell)
    requires Inv(d) && InStore(d.store, c) && Covers(c, id) && Lookup(d.store, id) == Some(o)
    ensures c == o
  {
    FindIsUnique(ItemsOf(d.store, id.client), id.client, id, c);
  }

  lemma EntryWire(c: Cell)
    ensures IsEntry(Wire(c)) <==> IsEntry(c)
  {
  }

  lemma SentProduced(items: seq<Cell>, d: DocState, j: nat)
    requires Holds(d, items) && Inv(d) && j < |Sent(d.store)| && forall x :: x in items ==> Produced(x)
    ensures Produced(Sent(d.store)[j])
  {
    hide Inv, Holds, Sent;
    assert Sent(d.store)[j] in Sent(d.store);
    SentHas(items, d, Sent(d.store)[j]);
  }

  lemma {:induction false} FlowsProduced(s: DocState, items: seq<Cell>)
    requires Flows(s, items)
    ensures forall x :: x in items ==> Produced(x)
    decreases |items|
  {
    hide Receive, Find;
    if items != [] {
      assert items == [items[0]] + items[1..];
      FlowsProduced(Receive(s, items[0]), items[1..]);
    }
  }

  /** If every origin is sent before, the document is rebuilt. */
  lemma DescendRebuilds(items: seq<Cell>, d: DocState)
    requires Flows(EMPTY, items) && NamedAll(items) && d == Deliver(EMPTY, items) && OriginsDescend(d.store)
    ensures Deliver(EMPTY, Sent(d.store)) == d
  {
    hide Inv, Flows, Deliver, Holds, OriginsDescend, Produced, OriginIn, Sent;
    NothingHeld();
    DeliverHolds(EMPTY, [], items);
    assert [] + items == items;
    var ws := Sent(d.store);
    FlowsProduced(EMPTY, items);
    forall j | 0 <= j < |ws| ensures Produced(ws[j]) && OriginIn(ws[..j], ws[j]) {
      SentProduced(items, d, j);
      OriginSentBefore(items, d, j);
    }
    SentOrdered(d);
    assert Causal(ws);
    CausalFlows(map[], ws);
    SentIsSame(items, d);
    Converges(EMPTY, items, ws);
  }

  lemma NothingHeld()
    ensures Inv(EMPTY) && Holds(EMPTY, []) && Blank(map[]) == EMPTY
  {
  }

  // If some origin comes later.

  /** Nothing is stored but what was delivered. */
  ghost predicate OnlyFrom(s: DocState, ws: seq<Cell>) {
    forall c :: InStore(s.store, c) ==> CellFrom(c, ws)
  }

  predicate CellFrom(c: Cell, ws: seq<Cell>) {
    exists w :: w in ws && w.id == c.id && w.len == c.len
  }

  lemma {:induction false} DeliverOnly(s: DocState, before: seq<Cell>, ws: seq<Cell>)
    requires OnlyFrom(s, before)
    ensures OnlyFrom(Deliver(s, ws), before + ws)
    decreases |ws|
  {
    hide Find, Link;
    if ws == [] {
      assert before + ws == before;
    } else {
      var w, t := ws[0], Receive(s, ws[0]);
      forall c | InStore(t.store, c) ensures CellFrom(c, before + [w]) {
        if InStore(s.store, c) {
          assert CellFrom(c, before);
        } else {
          assert w in before + [w];
        }
      }
      DeliverOnly(t, before + [w], ws[1..]);
      assert before + [w] + ws[1..] == before + ws;
    }
  }

  /** Once stored, an item keeps its parent, or has none for good. */
  lemma {:induction false} StaysStored(s: DocState, ws: seq<Cell>, id: Id)
    requires Lookup(s.store, id).Some?
    ensures Lookup(Deliver(s, ws).store, id) == Lookup(s.store, id)
    decreases |ws|
  {
    hide Find, Link;
    if ws != [] {
      LookupAfterAppend(s.store, ws[0].(home := Resolve(s.store, ws[0])), id);
      StaysStored(Receive(s, ws[0]), ws[1..], id);
    }
  }

  /** An item of which neither the clock nor the origin is stored never gets a parent. */
  lemma NoParent(s: DocState, w: Cell, ws: seq<Cell>)
    requires w.len >= 1 && w.home.None? && w.left.Some? && Lookup(s.store, w.id).None? && Lookup(s.store, w.left.value).None?
    ensures Deliver(s, [w] + ws) == Deliver(Receive(s, w), ws)
    ensures var o := Lookup(Deliver(s, [w] + ws).store, w.id); o.Some? && o.value.home.None?
  {
    hide Find, Link;
    assert ([w] + ws)[0] == w && ([w] + ws)[1..] == ws;
    LookupAfterAppend(s.store, w, w.id);
    StaysStored(Receive(s, w), ws, w.id);
  }

  /** Of the items before an item nothing has its clock, nor a clock of a smaller client. */
  lemma NothingBefore(d: DocState, j: nat, c: Cell, id: Id)
    requires Inv(d) && InStore(d.store, c) && j < |Sent(d.store)| && Sent(d.store)[j] == Wire(c)
    requires id == c.id || id.client < c.id.client
    ensures Lookup(Deliver(EMPTY, Sent(d.store)[..j]).store, id).None?
  {
    hide Inv, Find, Deliver, Sent, Wire, Covers, Ordered, OnlyFrom;
    var ws, before := Sent(d.store), Sent(d.store)[..j];
    assert OnlyFrom(EMPTY, []) by { EmptyFrom(); }
    DeliverOnly(EMPTY, [], before);
    assert [] + before == before;
    SentOrdered(d);
    WireKeeps(c);
    NoneCovers(ws, j, id);
    NoneStored(Deliver(EMPTY, before), before, id);
  }

  lemma EmptyFrom()
    ensures OnlyFrom(EMPTY, [])
  {
  }

  lemma NoneCovers(ws: seq<Cell>, j: nat, id: Id)
    requires Ordered(ws) && j < |ws| && (id == ws[j].id || id.client < ws[j].id.client)
    ensures forall w :: w in ws[..j] ==> !Covers(w, id)
  {
    forall w | w in ws[..j] ensures !Covers(w, id) {
      var k :| 0 <= k < j && ws[..j][k] == w;
      assert Earlier(ws[k], ws[j]);
    }
  }

  lemma NoneStored(r: DocState, ws: seq<Cell>, id: Id)
    requires OnlyFrom(r, ws) && forall w :: w in ws ==> !Covers(w, id)
    ensures Lookup(r.store, id).None?
  {
    hide Find, OnlyFrom;
    forall o | o in ItemsOf(r.store, id.client) ensures !Covers(o, id) {
      OneFrom(r, ws, o, id);
    }
  }

  lemma OneFrom(r: DocState, ws: seq<Cell>, o: Cell, id: Id)
    requires OnlyFrom(r, ws) && (forall w :: w in ws ==> !Covers(w, id)) && o in ItemsOf(r.store, id.client)
    ensures !Covers(o, id)
  {
    if InStore(r.store, o) {
      assert CellFrom(o, ws);
      var w :| w in ws && w.id == o.id && w.len == o.len;
    }
  }

  /** An item with an origin of a smaller client is not linked in the rebuilt document. */
  lemma SmallerOriginLost(items: seq<Cell>, d: DocState, c: Cell)
    requires Inv(d) && Holds(d, items) && InStore(d.store, c) && !OriginNotSmaller(c)
    ensures var o := Lookup(Deliver(EMPTY, Sent(d.store)).store, c.id); o.Some? && o.value.home.None?
    ensures c.home.Some? && Lookup(d.store, c.id) == Some(c)
  {
    hide Inv, Find, Deliver, Sent, Holds;
    var ws := Sent(d.store);
    HoldsHome(d, items, c);
    StoredSized(d, c);
    OwnUnit(d, c);
    CellSent(d, c);
    var j :| 0 <= j < |ws| && ws[j] == Wire(c);
    NothingBefore(d, j, c, c.id);
    NothingBefore(d, j, c, c.left.value);
    var r := Deliver(EMPTY, ws[..j]);
    NoParent(r, Wire(c), ws[j + 1..]);
    assert ws == ws[..j] + ([Wire(c)] + ws[j + 1..]);
    DeliverConcat(EMPTY, ws[..j], [Wire(c)] + ws[j + 1..]);
  }

  lemma HoldsHome(d: DocState, items: seq<Cell>, c: Cell)
    requires Holds(d, items) && InStore(d.store, c)
    ensures c.home.Some?
  {
  }

  lemma OwnUnit(d: DocState, c: Cell)
    requires Inv(d) && InStore(d.store, c)
    ensures Lookup(d.store, c.id) == Some(c)
  {
    FindIsUnique(ItemsOf(d.store, c.id.client), c.id.client, c.id, c);
  }

  /**
   * The exact condition. Sent as a snapshot or as a whole diff, a document that was built from items
   * in causal order is rebuilt by the receiver if and only if no item has an origin of a client with
   * a smaller ID: clients are sent by descending ID, and what comes before its origin stays unlinked.
   */
  lemma RebuiltIff(items: seq<Cell>, d: DocState)
    requires Flows(EMPTY, items) && NamedAll(items) && d == Deliver(EMPTY, items)
    ensures SameItems(Deliver(EMPTY, Sent(d.store)), d) <==> OriginsDescend(d.store)
    ensures OriginsDescend(d.store) ==> Deliver(EMPTY, Sent(d.store)) == d
  {
    hide Inv, Flows, Deliver, Holds, Sent, OriginNotSmaller;
    NothingHeld();
    DeliverHolds(EMPTY, [], items);
    assert [] + items == items;
    if OriginsDescend(d.store) {
      DescendRebuilds(items, d);
    } else {
      var c :| InStore(d.store, c) && !OriginNotSmaller(c);
      SmallerOriginLost(items, d, c);
    }
  }

  /**
   * Through the bytes: a document of several authors, whatever is deleted in it, is sent by
   * EncodeStateAsUpdate for the clients in any order. A fresh document that decodes the bytes has the
   * same store and the same lists if and only if no item has an origin of a smaller client.
   */
  lemma SnapshotOfMany(items: seq<Cell>, s: DocState, clients: seq<nat>)
    requires Flows(EMPTY, items) && NamedAll(items) && SameItems(s, Deliver(EMPTY, items))
    requires GapFree(s.store) && StoreSendable(s.store) && Lists(clients, s.store) && |Diff(s.store, map[], clients)| < TWO64
    ensures var all := Diff(s.store, map[], clients);
            && AllSendable(all) && Updates.AllFit(Structs(all)) && Updates.Print(Updates.UpdateV1(Structs(all), map[])).Ok?
            && DecodeBytes(SnapshotData(s.store, clients)) == Some(Update(Sent(s.store), map[]))
            && (SameItems(ApplyUpdate(EMPTY, Update(Sent(s.store), map[]), []), s) <==> OriginsDescend(s.store))
  {
    hide Sendable, GapFree, StoreSendable, AllSendable, Structs, Diff, Flows, Deliver, OriginsDescend, NamedAll;
    hide Updates.AllFit, Updates.Print, Updates.Parse, Kept, AllItems, CellsFrom;
    DiffReadBack(s.store, map[], clients);
    var desc := Diff(s.store, map[], SortDesc(s.store.Keys));
    StructsFit(desc);
    AllKept(Structs(desc));
    RebuiltIff(items, Deliver(EMPTY, items));
    assert EMPTY.(ds := Merge(map[], map[])) == EMPTY;
  }

  /** Client 1 types a, client 2 types b after it. */
  function TwoAuthors(name: Name, a: Rune, b: Rune): (Cell, Cell) {
    (Letter(1, 0, None, name, a), Letter(2, 0, Some(Id(1, 0)), name, b))
  }

  lemma BothWritten(name: Name, a: Rune, b: Rune)
    requires name != []
    ensures var (x, y) := TwoAuthors(name, a, b);
            var d := Deliver(EMPTY, [Wire(x), Wire(y)]);
            Flows(EMPTY, [Wire(x), Wire(y)]) && d.store == map[1 := [x], 2 := [y]] && ChainOf(d.chains, ArrayKey(name)) == [x, y]
  {
    hide Inv, Receive, Enabled, Deliver, Flows, Wire;
    var (x, y) := TwoAuthors(name, a, b);
    var key := ArrayKey(name);
    var d1 := DocState(map[1 := [x]], map[key := [x]], map[], {});
    NothingHeld();
    assert [] + [x] == [x] && [x] + [y] == [x, y] && [] + [y] == [y];
    Arrives(EMPTY, x, name, d1);
    Arrives(d1, y, name, DocState(map[1 := [x], 2 := [y]], map[key := [x, y]], map[], {}));
    BothDelivered(EMPTY, Wire(x), Wire(y));
  }

  lemma OneRestored(name: Name, a: Rune, b: Rune)
    requires name != []
    ensures var (x, y) := TwoAuthors(name, a, b); ChainOf(Deliver(EMPTY, [Wire(y), Wire(x)]).chains, ArrayKey(name)) == [x]
  {
    hide Inv, Receive, Enabled, Deliver, Flows, Wire;
    var (x, y) := TwoAuthors(name, a, b);
    Unlinked(y);
    assert [] + [x] == [x];
    var r := DocState(map[2 := [y.(home := None)]], map[], map[], {});
    Arrives(r, x, name, DocState(map[1 := [x], 2 := [y.(home := None)]], map[ArrayKey(name) := [x]], map[], {}));
    BothDelivered(EMPTY, Wire(y), Wire(x));
  }

  /** For example: client 1 types a, client 2 types b after it. The restored text has lost the b. */
  lemma GreaterAuthorLost(name: Name, a: Rune, b: Rune)
    requires name != []
    ensures var (x, y) := TwoAuthors(name, a, b);
            var d := Deliver(EMPTY, [Wire(x), Wire(y)]);
            && Flows(EMPTY, [Wire(x), Wire(y)]) && ChainOf(d.chains, ArrayKey(name)) == [x, y]
            && Sent(d.store) == [Wire(y), Wire(x)] && ChainOf(Deliver(EMPTY, Sent(d.store)).chains, ArrayKey(name)) == [x]
  {
    hide Deliver, Flows, Wire, Sent;
    var (x, y) := TwoAuthors(name, a, b);
    BothWritten(name, a, b);
    TwoSent(Deliver(EMPTY, [Wire(x), Wire(y)]).store, x, y);
    OneRestored(name, a, b);
  }

  lemma BothDelivered(s: DocState, v: Cell, w: Cell)
    ensures Deliver(s, [v, w]) == Receive(Receive(s, v), w)
    ensures Flows(s, [v, w]) <==> Enabled(s, v) && Enabled(Receive(s, v), w)
  {
    hide Enabled, Receive, Deliver, Flows;
    MovedText.DeliverOne(s, v);
    MovedText.DeliverOne(Receive(s, v), w);
    DeliverConcat(s, [v], [w]);
    assert [v] + [w] == [v, w];
  }

  lemma TwoSent(store: Store, x: Cell, y: Cell)
    requires store == map[1 := [x], 2 := [y]] && x.len == 1 && y.len == 1
    ensures Sent(store) == [Wire(y), Wire(x)]
  {
    hide Wire, Diff, SortDesc;
    SortDescIs({1, 2});
    var r := SortDesc({1, 2});
    assert store.Keys == {1, 2} && |r| == 2 && r[0] in r && r[1] in r;
    assert r == [2, 1] && r[1..] == [1] && r[1..][1..] == [];
    DiffFirst(store, r, y);
    DiffFirst(store, [1], x);
    assert [1][1..] == [] && Diff(store, map[], []) == [] by { DiffNothing(store); }
    assert [y] + ([x] + []) == [y, x] && Wires([y, x]) == [Wire(y), Wire(x)];
  }

  lemma DiffNothing(store: Store)
    ensures Diff(store, map[], []) == []
  {
  }

  lemma DiffFirst(store: Store, clients: seq<nat>, c: Cell)
    requires clients != [] && ItemsOf(store, clients[0]) == [c] && c.len == 1
    ensures Diff(store, map[], clients) == [c] + Diff(store, map[], clients[1..])
  {
    assert Rest([c], 0) == [c][0..] && [c][0..] == [c];
  }

  /** An item of the wire whose origin is not there. */
  lemma Unlinked(y: Cell)
    requires y.left.Some? && y.len == 1 && y.id.client == 2 && y.content.Str? && Sized(y)
    ensures Receive(EMPTY, Wire(y)) == DocState(map[2 := [y.(home := None)]], map[], map[], {}) && Inv(Receive(EMPTY, Wire(y)))
  {
    assert [] + [Wire(y)] == [Wire(y)];
  }
}

/**
 * Synchronising by state vector: EncodeStateAsUpdate sends, for every client, the items that end
 * after the receiver's state, and applying them brings the receiver up to the sender exactly if no
 * item reaches across the receiver's state.
 */
module DiffSync {
  import opened Ids
  import opened Cells
  import opened Integration
  import opened Exactness
  import opened UnitReplicas
  import opened LocalEdits
  import opened Replication
  import opened Tiling

  /** stateVector */
  function StateVector(store: Store): (sv: map<nat, nat>)
    ensures sv.Keys == store.Keys && forall c :: c in sv ==> sv[c] == StateOf(store, c)
  {
    map c | c in store :: StateOf(store, c)
  }

  function StateIn(sv: map<nat, nat>, client: nat): nat {
    if client in sv then sv[client] else 0
  }

  /** The first item that ends after the state, which the binary search of EncodeStateAsUpdate finds. */
  function FirstAfter(items: seq<Cell>, state: nat): (i: nat)
    ensures i <= |items| && (i < |items| ==> End(items[i]) > state)
    ensures forall j :: 0 <= j < i ==> End(items[j]) <= state
  {
    if items == [] || End(items[0]) > state then 0 else 1 + FirstAfter(items[1..], state)
  }

  /** What is sent for one client. */
  function Rest(items: seq<Cell>, state: nat): seq<Cell> {
    items[FirstAfter(items, state)..]
  }

  /** What is sent, the clients in some order. */
  function Diff(store: Store, sv: map<nat, nat>, clients: seq<nat>): seq<Cell> {
    if clients == [] then []
    else Rest(ItemsOf(store, clients[0]), StateIn(sv, clients[0])) + Diff(store, sv, clients[1..])
  }

  /** Every client of the store, once. */
  ghost predicate Lists(clients: seq<nat>, store: Store) {
    && (forall i, j :: 0 <= i < j < |clients| ==> clients[i] != clients[j])
    && (forall c :: c in clients <==> c in store)
  }

  /** No item of the sender reaches across the state. */
  predicate Boundary(items: seq<Cell>, state: nat) {
    forall x :: x in items ==> !(x.id.clock < state < End(x))
  }

  /** A run of items of one client from a clock on, without gaps. */
  predicate Contiguous(run: seq<Cell>, client: nat, from: nat) {
    run == [] || (run[0].id == Id(client, from) && Sized(run[0]) && Contiguous(run[1..], client, End(run[0])))
  }

  lemma {:induction false} TiledRun(items: seq<Cell>, client: nat, k: nat)
    requires Tiled(items, client) && k < |items|
    ensures Contiguous(items[k..], client, items[k].id.clock)
    decreases |items| - k
  {
    hide Sorted;
    assert Sized(items[k]) && items[k].id.client == client by { SortedAt(items, client, k); }
    if k + 1 < |items| {
      TiledRun(items, client, k + 1);
      assert items[k..][1..] == items[k + 1..];
    }
  }

  lemma SortedAt(items: seq<Cell>, client: nat, k: nat)
    requires Sorted(items, client) && k < |items|
    ensures Sized(items[k]) && items[k].id.client == client
  {
  }

  /** The items that are sent for a client are those that start at or after the receiver's state. */
  lemma RestIs(items: seq<Cell>, client: nat, state: nat)
    requires Tiled(items, client) && Boundary(items, state)
    ensures var rest := Rest(items, state);
            && Contiguous(rest, client, state) && (rest == [] <==> EndOf(items) <= state)
            && (rest != [] ==> EndOf(rest) == EndOf(items))
            && forall x :: x in rest <==> x in items && x.id.clock >= state
  {
    hide Sorted, Boundary, EndOf;
    var k := FirstAfter(items, state);
    FirstStart(items, client, state);
    if k < |items| { TiledRun(items, client, k); }
    LaterItems(items, k, state);
  }

  lemma LaterItems(items: seq<Cell>, k: nat, state: nat)
    requires k <= |items| && forall i :: 0 <= i < |items| ==> (items[i].id.clock >= state <==> i >= k)
    ensures forall x :: x in items[k..] <==> x in items && x.id.clock >= state
    ensures k < |items| ==> EndOf(items[k..]) == EndOf(items)
  {
    forall x | x in items ensures x in items[k..] <==> x.id.clock >= state {
      var i :| 0 <= i < |items| && items[i] == x;
      if i >= k { assert items[k..][i - k] == x; }
    }
  }

  /** Items before the first one sent end, and all others start, on their side of the state. */
  lemma FirstStart(items: seq<Cell>, client: nat, state: nat)
    requires Tiled(items, client) && Boundary(items, state)
    ensures var k := FirstAfter(items, state);
            && (forall i :: 0 <= i < |items| ==> (items[i].id.clock >= state <==> i >= k))
            && (k < |items| ==> items[k].id.clock == state) && (k == |items| <==> EndOf(items) <= state)
  {
    var k := FirstAfter(items, state);
    if k < |items| {
      assert items[k] in items;
      assert k > 0 ==> items[k].id.clock == End(items[k - 1]);
      assert EndOf(items) == End(items[|items| - 1]) && (k < |items| - 1 ==> End(items[k]) <= items[|items| - 1].id.clock);
    }
  }

  /** A contiguous run from the state of its client is appended, item by item. */
  lemma {:induction false} DeliverRun(s: DocState, run: seq<Cell>, client: nat)
    requires GapFree(s.store) && Contiguous(run, client, StateOf(s.store, client))
    ensures var t := Deliver(s, Wires(run));
            && GapFree(t.store) && StateOf(t.store, client) == (if run == [] then StateOf(s.store, client) else EndOf(run))
            && forall c :: c != client ==> ItemsOf(t.store, c) == ItemsOf(s.store, c)
    decreases |run|
  {
    hide GapFree, Find;
    if run != [] {
      var x, rest := Wire(run[0]), run[1..];
      GapFreeCovers(s.store, x.id);
      ReceiveKeepsGapFree(s, x);
      var t := Receive(s, x);
      StateAfterAppend(s.store, x.(home := Resolve(s.store, x)), client);
      assert Wires(run)[0] == x && Wires(run)[1..] == Wires(rest);
      DeliverRun(t, rest, client);
    }
  }

  function Max(a: nat, b: nat): nat {
    if a >= b then a else b
  }

  /** The boundaries are met for every client that is sent. */
  ghost predicate Meets(sender: Store, r: Store, clients: seq<nat>) {
    forall c :: c in clients ==> Boundary(ItemsOf(sender, c), StateOf(r, c))
  }

  lemma {:induction false} DeliverDiff(sender: Store, sv: map<nat, nat>, r: DocState, clients: seq<nat>)
    requires GapFree(sender) && GapFree(r.store) && Meets(sender, r.store, clients)
    requires forall i, j :: 0 <= i < j < |clients| ==> clients[i] != clients[j]
    requires forall c :: c in clients ==> StateIn(sv, c) == StateOf(r.store, c)
    ensures var t := Deliver(r, Wires(Diff(sender, sv, clients)));
            && GapFree(t.store)
            && forall c :: StateOf(t.store, c) ==
                 if c in clients then Max(StateOf(r.store, c), StateOf(sender, c)) else StateOf(r.store, c)
    decreases |clients|
  {
    hide GapFree, Boundary, Rest, Deliver, StateOf, Max;
    if clients == [] {
      assert Wires([]) == [] && Deliver(r, []) == r by { DeliverNothing(r); }
    } else {
      var c, rest := clients[0], clients[1..];
      var run := Rest(ItemsOf(sender, c), StateOf(r.store, c));
      DeliverClient(sender, r, c);
      var t := Deliver(r, Wires(run));
      WiresConcat(run, Diff(sender, sv, rest));
      DeliverConcat(r, Wires(run), Wires(Diff(sender, sv, rest)));
      assert forall d :: d in rest ==> d in clients && d != c;
      DeliverDiff(sender, sv, t, rest);
    }
  }

  /** What is sent for one client brings the receiver up to the sender for this client. */
  lemma DeliverClient(sender: Store, r: DocState, c: nat)
    requires GapFree(sender) && GapFree(r.store) && Boundary(ItemsOf(sender, c), StateOf(r.store, c))
    ensures var t := Deliver(r, Wires(Rest(ItemsOf(sender, c), StateOf(r.store, c))));
            && GapFree(t.store) && StateOf(t.store, c) == Max(StateOf(r.store, c), StateOf(sender, c))
            && forall d :: d != c ==> StateOf(t.store, d) == StateOf(r.store, d)
  {
    hide GapFree, Contiguous, Boundary, Rest, Deliver, EndOf;
    GapFreeAt(sender, c);
    RestIs(ItemsOf(sender, c), c, StateOf(r.store, c));
    DeliverRun(r, Rest(ItemsOf(sender, c), StateOf(r.store, c)), c);
  }

  lemma DeliverNothing(r: DocState)
    ensures Deliver(r, []) == r
  {
  }

  lemma GapFreeAt(store: Store, c: nat)
    requires GapFree(store)
    ensures Tiled(ItemsOf(store, c), c)
  {
  }

  lemma WiresConcat(a: seq<Cell>, b: seq<Cell>)
    ensures Wires(a + b) == Wires(a) + Wires(b)
  {
  }

  /** Every clock of the sender is stored. */
  ghost predicate HasAll(t: DocState, sender: Store) {
    forall id: Id :: id.clock < StateOf(sender, id.client) ==> Held(t, id)
  }

  /** A clock stays unknown if every delivered item that covers it is skipped. */
  lemma {:induction false} StaysUnknown(s: DocState, items: seq<Cell>, id: Id)
    requires !Held(s, id) && forall x :: x in items && Covers(x, id) ==> Held(s, x.id)
    ensures !Held(Deliver(s, items), id)
    decreases |items|
  {
    hide Find;
    if items != [] {
      var x := items[0];
      forall y: Id ensures Held(s, y) ==> Held(Receive(s, x), y) {
        LookupAfterAppend(s.store, x.(home := Resolve(s.store, x)), y);
      }
      LookupAfterAppend(s.store, x.(home := Resolve(s.store, x)), id);
      StaysUnknown(Receive(s, x), items[1..], id);
    }
  }

  lemma {:induction false} DiffFrom(store: Store, sv: map<nat, nat>, clients: seq<nat>, x: Cell)
    requires GapFree(store) && x in Diff(store, sv, clients)
    ensures InStore(store, x) && x.id.client in clients
  {
    hide GapFree;
    var c := clients[0];
    if x in Rest(ItemsOf(store, c), StateIn(sv, c)) {
      GapFreeAt(store, c);
    } else {
      DiffFrom(store, sv, clients[1..], x);
    }
  }

  /** An item that reaches across the receiver's state is known by its first clock, and its rest is lost. */
  lemma RestLost(sender: Store, r: DocState, clients: seq<nat>, x: Cell)
    requires GapFree(sender) && GapFree(r.store) && InStore(sender, x)
    requires x.id.clock < StateOf(r.store, x.id.client) < End(x)
    ensures var id := Id(x.id.client, StateOf(r.store, x.id.client));
            id.clock < StateOf(sender, id.client) && !Held(Deliver(r, Wires(Diff(sender, StateVector(r.store), clients))), id)
  {
    hide Find, GapFree;
    var c := x.id.client;
    var id := Id(c, StateOf(r.store, c));
    var items := Diff(sender, StateVector(r.store), clients);
    GapFreeCovers(r.store, id);
    GapFreeCovers(sender, id);
    forall w | w in Wires(items) && Covers(w, id) ensures Held(r, w.id) {
      var i :| 0 <= i < |Wires(items)| && Wires(items)[i] == w;
      var y := items[i];
      assert y in items;
      DiffFrom(sender, StateVector(r.store), clients, y);
      assert y == x;
      GapFreeCovers(r.store, w.id);
    }
    StaysUnknown(r, Wires(items), id);
  }

  /**
   * Diff sync. Between contiguous stores, applying the diff for the receiver's state vector gives
   * the receiver every clock of the sender if and only if, for every client, no item of the sender
   * reaches across the receiver's state. Then the diff holds exactly the items that the receiver
   * lacks, and its state vector becomes the pointwise maximum.
   */
  lemma DiffBrings(sender: Store, r: DocState, clients: seq<nat>)
    requires GapFree(sender) && GapFree(r.store) && Lists(clients, sender)
    ensures var u := Diff(sender, StateVector(r.store), clients);
            var t := Deliver(r, Wires(u));
            && (HasAll(t, sender) <==> Meets(sender, r.store, clients))
            && (Meets(sender, r.store, clients) ==>
                 (GapFree(t.store) && forall c :: StateOf(t.store, c) == Max(StateOf(r.store, c), StateOf(sender, c))))
  {
    hide GapFree, Find, Diff, Deliver, Wires;
    var sv := StateVector(r.store);
    var t := Deliver(r, Wires(Diff(sender, sv, clients)));
    if Meets(sender, r.store, clients) {
      DeliverDiff(sender, sv, r, clients);
      forall id: Id | id.clock < StateOf(sender, id.client) ensures Held(t, id) {
        GapFreeCovers(t.store, id);
      }
    } else {
      var c :| c in clients && !Boundary(ItemsOf(sender, c), StateOf(r.store, c));
      var x :| x in ItemsOf(sender, c) && x.id.clock < StateOf(r.store, c) < End(x);
      GapFreeAt(sender, c);
      RestLost(sender, r, clients, x);
    }
  }

  /** What the diff holds, if the boundaries are met: the items whose units the receiver lacks. */
  lemma {:induction false} DiffIsMissing(sender: Store, r: DocState, clients: seq<nat>, x: Cell)
    requires GapFree(sender) && GapFree(r.store) && Meets(sender, r.store, clients)
    ensures x in Diff(sender, StateVector(r.store), clients) <==>
              x.id.client in clients && InStore(sender, x) && !Held(r, x.id)
    decreases |clients|
  {
    hide GapFree, Find, Rest;
    if clients != [] {
      var c := clients[0];
      assert Boundary(ItemsOf(sender, c), StateOf(r.store, c));
      GapFreeAt(sender, c);
      RestIs(ItemsOf(sender, c), c, StateOf(r.store, c));
      GapFreeCovers(r.store, x.id);
      DiffIsMissing(sender, r, clients[1..], x);
      assert clients == [c] + clients[1..];
    }
  }
}

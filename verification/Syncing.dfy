/** encoding.go on the objects: EncodeStateVector, EncodeStateAsUpdate, and with it Snapshot. */
module Syncing {
  import opened Wrappers
  import opened Values
  import opened Cells
  import opened Integration
  import opened Varints
  import opened DiffSync
  import SV = StateVectors
  import E = EncodedItems
  import Updates
  import opened Encoding
  import opened Items
  import opened Docs
  import opened Transactions

  /** The slice of a client says what the store holds. */
  lemma SliceSays(d: Doc, client: nat)
    requires d.Valid()
    ensures Says(d.store.Of(client)) == ItemsOf(d.held.view.store, client) && Sorted(ItemsOf(d.held.view.store, client), client)
    ensures d.store.clients.Keys == d.held.view.store.Keys
  {
    hide Find, ItemsAre, ListsAre, FlagsAre, ParentsAre, ListsLinked, LooseApart, HeadsAre, Placed;
    var items, cells := d.store.Of(client), ItemsOf(d.held.view.store, client);
    assert Spell(d.held.says, items, cells);
    forall i | 0 <= i < |items| ensures Says(items)[i] == cells[i] {
      assert items[i] in d.held.says;
    }
  }

  /** stateVector */
  method CurrentVector(d: Doc) returns (sv: map<nat, nat>)
    requires d.Valid()
    ensures sv == StateVector(d.held.view.store)
  {
    hide Coherent, Embodied, Inv, Placed, Sorted, Says, EndOf;
    ghost var store := d.held.view.store;
    SliceSays(d, 0);
    sv := map[];
    var todo := d.store.clients.Keys;
    while todo != {}
      invariant todo <= store.Keys && sv.Keys == store.Keys - todo
      invariant forall c :: c in sv ==> sv[c] == StateOf(store, c)
      decreases |todo|
    {
      var c :| c in todo;
      SliceSays(d, c);
      StateIsLast(d.store, c, ItemsOf(store, c));
      sv := sv[c := d.store.GetState(c)];
      todo := todo - {c};
    }
  }

  lemma StateIsLast(store: StructStore, client: nat, cells: seq<Cell>)
    requires Says(store.Of(client)) == cells
    ensures store.GetState(client) == EndOf(cells)
  {
    var items := store.Of(client);
    if items != [] { assert Says(items)[|items| - 1] == items[|items| - 1].AsCell(); }
  }

  /** EncodeStateVector */
  method EncodeStateVector(d: Doc) returns (data: Bytes)
    requires d.Valid() && SV.Fits(StateVector(d.held.view.store))
    ensures data == SV.Print(StateVector(d.held.view.store))
  {
    var sv := CurrentVector(d);
    data := SV.Encode(sv);
  }

  lemma FirstAfterIs(cells: seq<Cell>, client: nat, state: nat, i: nat)
    requires Sorted(cells, client) && i <= |cells|
    requires (forall j :: 0 <= j < i ==> End(cells[j]) <= state) && (i < |cells| ==> End(cells[i]) > state)
    ensures i == FirstAfter(cells, state)
  {
    var k := FirstAfter(cells, state);
  }

  /** The ends of the items of a client rise. */
  lemma EndsRise(cells: seq<Cell>, client: nat, mid: nat)
    requires Sorted(cells, client) && mid < |cells|
    ensures forall j :: 0 <= j <= mid ==> End(cells[j]) <= End(cells[mid])
    ensures forall j :: mid <= j < |cells| ==> End(cells[mid]) <= End(cells[j])
  {
  }

  /** The binary search for the first item that ends after the state. */
  method StartIndex(items: seq<Item>, state: nat, ghost client: nat) returns (i: nat)
    requires Sorted(Says(items), client)
    ensures i == FirstAfter(Says(items), state)
  {
    hide Sorted, Says, FirstAfter;
    ghost var cells := Says(items);
    var lo, hi := 0, |items|;
    while lo < hi
      invariant 0 <= lo <= hi <= |items|
      invariant forall j :: 0 <= j < lo ==> End(cells[j]) <= state
      invariant forall j :: hi <= j < |items| ==> End(cells[j]) > state
    {
      var mid := (lo + hi) / 2;
      assert items[mid].AsCell() == cells[mid];
      EndsRise(cells, client, mid);
      if items[mid].id.clock + items[mid].length > state {
        hi := mid;
      } else {
        lo := mid + 1;
      }
    }
    FirstAfterIs(cells, client, state, lo);
    i := lo;
  }

  ghost predicate StoreSendable(store: Store) {
    forall c :: AllSendable(ItemsOf(store, c))
  }

  lemma SaysFrom(items: seq<Item>, k: nat)
    requires k <= |items|
    ensures Says(items[k..]) == Says(items)[k..]
  {
  }

  lemma {:induction false} DiffMore(store: Store, sv: map<nat, nat>, clients: seq<nat>, c: nat)
    ensures Diff(store, sv, clients + [c]) == Diff(store, sv, clients) + Rest(ItemsOf(store, c), StateIn(sv, c))
  {
    hide Rest;
    if clients == [] {
      assert [c][1..] == [];
    } else {
      assert (clients + [c])[1..] == clients[1..] + [c];
      DiffMore(store, sv, clients[1..], c);
    }
  }

  lemma StructsMore(a: seq<Cell>, b: seq<Cell>)
    requires AllSendable(a) && AllSendable(b)
    ensures AllSendable(a + b) && Structs(a + b) == Structs(a) + Structs(b)
  {
    hide Sendable, ToEncoded;
  }

  /** So far these clients have been collected. */
  ghost predicate Collecting(store: Store, sv: map<nat, nat>, clients: seq<nat>, es: seq<E.EncodedItem>) {
    AllSendable(Diff(store, sv, clients)) && es == Structs(Diff(store, sv, clients))
  }

  lemma CollectingMore(store: Store, sv: map<nat, nat>, clients: seq<nat>, es: seq<E.EncodedItem>, c: nat)
    requires Collecting(store, sv, clients, es) && StoreSendable(store)
    ensures var rest := Rest(ItemsOf(store, c), StateIn(sv, c));
            AllSendable(rest) && Collecting(store, sv, clients + [c], es + Structs(rest))
  {
    hide Sendable, Structs, Diff;
    var cells, rest := ItemsOf(store, c), Rest(ItemsOf(store, c), StateIn(sv, c));
    assert AllSendable(cells);
    forall i | 0 <= i < |rest| ensures Sendable(rest[i]) {
      assert rest[i] == cells[FirstAfter(cells, StateIn(sv, c)) + i];
    }
    DiffMore(store, sv, clients, c);
    StructsMore(Diff(store, sv, clients), rest);
  }

  /** The items of one client. */
  method CollectClient(d: Doc, remote: map<nat, nat>, client: nat) returns (es: seq<E.EncodedItem>)
    requires d.Valid() && AllSendable(Rest(ItemsOf(d.held.view.store, client), StateIn(remote, client)))
    ensures es == Structs(Rest(ItemsOf(d.held.view.store, client), StateIn(remote, client)))
  {
    hide Coherent, Embodied, Inv, Placed, Sorted, Says, AllSendable, Structs, FirstAfter;
    SliceSays(d, client);
    var items := d.store.Of(client);
    var remoteState := if client in remote then remote[client] else 0;
    var startIdx := StartIndex(items, remoteState, client);
    SaysFrom(items, startIdx);
    es := EncodeItems(items[startIdx..]);
  }

  /** The loop of EncodeStateAsUpdate, the clients in whatever order the map iteration gives. */
  method Collect(d: Doc, remote: map<nat, nat>) returns (es: seq<E.EncodedItem>, ghost clients: seq<nat>)
    requires d.Valid() && StoreSendable(d.held.view.store)
    ensures Lists(clients, d.held.view.store) && Collecting(d.held.view.store, remote, clients, es)
  {
    hide Coherent, Embodied, Inv, Placed, Collecting, StoreSendable, AllSendable, Structs, Rest, Says, Sorted;
    ghost var store := d.held.view.store;
    SliceSays(d, 0);
    es, clients := [], [];
    CollectingNone(store, remote);
    var todo := d.store.clients.Keys;
    while todo != {}
      invariant todo <= store.Keys && Collecting(store, remote, clients, es)
      invariant forall i, j :: 0 <= i < j < |clients| ==> clients[i] != clients[j]
      invariant forall c :: c in clients <==> c in store && c !in todo
      decreases |todo|
    {
      var c :| c in todo;
      CollectingMore(store, remote, clients, es, c);
      var more := CollectClient(d, remote, c);
      es, clients := es + more, clients + [c];
      todo := todo - {c};
    }
  }

  lemma CollectingNone(store: Store, sv: map<nat, nat>)
    ensures Collecting(store, sv, [], [])
  {
    assert Structs([]) == [];
  }

  /** The number of stored items fits the wire format, so what is sent of them does. */
  ghost predicate Countable(store: Store) {
    forall sv: map<nat, nat>, clients :: Lists(clients, store) ==> |Diff(store, sv, clients)| < TWO64
  }

  /** The bytes of the diff for a state vector, without a delete set. */
  ghost predicate Carries(res: Result<Bytes>, store: Store, sv: map<nat, nat>, clients: seq<nat>) {
    var items := Diff(store, sv, clients);
    && Lists(clients, store) && AllSendable(items) && Updates.AllFit(Structs(items))
    && res.Ok? && res == Updates.Print(Updates.UpdateV1(Structs(items), map[]))
  }

  lemma DiffPrints(store: Store, sv: map<nat, nat>, clients: seq<nat>)
    requires Lists(clients, store) && AllSendable(Diff(store, sv, clients)) && |Diff(store, sv, clients)| < TWO64
    ensures var es := Structs(Diff(store, sv, clients)); Updates.AllFit(es) && Updates.Print(Updates.UpdateV1(es, map[])).Ok?
  {
    hide Sendable, Diff, Updates.AllFit, Updates.Print, Updates.Parse, E.WellFormed, Updates.Normal, IsItem, FromEncoded;
    StructsFit(Diff(store, sv, clients));
    Updates.UpdateRoundTrip(Updates.UpdateV1(Structs(Diff(store, sv, clients)), map[]));
  }

  /**
   * EncodeStateAsUpdate: without a state vector, as for Snapshot, the bytes of all stored items; with the bytes
   * of a state vector those of the diff for it; an error for bytes that are no state vector. No delete set.
   */
  method EncodeStateAsUpdate(d: Doc, encodedStateVector: Bytes) returns (res: Result<Bytes>, ghost clients: seq<nat>)
    requires d.Valid() && StoreSendable(d.held.view.store) && Countable(d.held.view.store)
    ensures encodedStateVector == [] ==> Carries(res, d.held.view.store, map[], clients)
    ensures forall sv :: SV.Fits(sv) && encodedStateVector == SV.Print(sv) ==> Carries(res, d.held.view.store, sv, clients)
    ensures encodedStateVector != [] && SV.Parse(encodedStateVector).Ok? ==>
              Carries(res, d.held.view.store, SV.Parse(encodedStateVector).value, clients)
    ensures encodedStateVector != [] && SV.Parse(encodedStateVector).Err? ==> res == Err(SV.Parse(encodedStateVector).error)
  {
    hide Coherent, Embodied, Inv, Placed, StoreSendable, AllSendable, Structs, Lists, Diff, Updates.Print, Updates.AllFit, SV.Parse, SV.Print;
    clients := [];
    forall sv | SV.Fits(sv) && encodedStateVector == SV.Print(sv) ensures SV.Parse(encodedStateVector) == Ok(sv) && encodedStateVector != [] {
      SV.StateVectorRoundTrip(sv);
      PrintNotEmpty(sv);
    }
    var remoteSV := map[];
    if encodedStateVector != [] {
      var sv := SV.Decode(encodedStateVector);
      if sv.Err? { return Err(sv.error), []; }
      remoteSV := sv.value;
    }
    var es;
    es, clients := Collect(d, remoteSV);
    ItemsFit(Diff(d.held.view.store, remoteSV, clients));
    DiffPrints(d.held.view.store, remoteSV, clients);
    res := Updates.Encode(Updates.UpdateV1(es, map[]));
  }

  lemma PrintNotEmpty(sv: map<nat, nat>)
    ensures SV.Print(sv) != []
  {
  }
}

/**
 * What integration keeps over runs: linked items never change their order, every item stays to the
 * right of its origin, and the list of a map key stays in descending order of IDs.
 */
module Intention {
  import opened Wrappers
  import opened Values
  import opened Ids
  import opened Cells
  import opened Integration
  import opened Convergence
  import opened Authoring

  /** An item with the first ID is somewhere before an item with the second one. */
  ghost predicate Precedes(chain: seq<Cell>, a: Id, b: Id) {
    exists i, j :: 0 <= i < j < |chain| && chain[i].id == a && chain[j].id == b
  }

  lemma InsertKeepsOrder(chain: seq<Cell>, p: nat, x: Cell, a: Id, b: Id)
    requires p <= |chain| && Precedes(chain, a, b)
    ensures Precedes(InsertAt(chain, p, x), a, b)
  {
    var i, j :| 0 <= i < j < |chain| && chain[i].id == a && chain[j].id == b;
    var longer := InsertAt(chain, p, x);
    assert longer[if i < p then i else i + 1] == chain[i] && longer[if j < p then j else j + 1] == chain[j];
  }

  lemma ReceiveKeepsOrder(s: DocState, x: Cell, k: Key, a: Id, b: Id)
    requires Precedes(ChainOf(s.chains, k), a, b)
    ensures Precedes(ChainOf(Receive(s, x).chains, k), a, b)
  {
    hide Precedes, Find;
    var c := x.(home := Resolve(s.store, x));
    if Lookup(s.store, x.id).None? && c.home.Some? && KeyOf(c) == k {
      InsertKeepsOrder(ChainOf(s.chains, k), Place(ChainOf(s.chains, k), c), c, a, b);
    }
  }

  /** Intention, first half: whatever is received later, two linked items keep their order. */
  lemma {:induction false} DeliverKeepsOrder(s: DocState, items: seq<Cell>, k: Key, a: Id, b: Id)
    requires Precedes(ChainOf(s.chains, k), a, b)
    ensures Precedes(ChainOf(Deliver(s, items).chains, k), a, b)
    decreases |items|
  {
    hide Precedes, Receive;
    if items != [] {
      ReceiveKeepsOrder(s, items[0], k, a, b);
      DeliverKeepsOrder(Receive(s, items[0]), items[1..], k, a, b);
    }
  }

  /** Every item of the list that has an origin comes after an item that covers the origin. */
  ghost predicate RightOfOrigins(chain: seq<Cell>) {
    forall j :: 0 <= j < |chain| && chain[j].left.Some? ==> exists i :: 0 <= i < j && Covers(chain[i], chain[j].left.value)
  }

  lemma IntegrateKeepsOrigins(chain: seq<Cell>, x: Cell)
    requires RightOfOrigins(chain) && LeftFound(chain, x)
    ensures RightOfOrigins(Integrate(chain, x))
  {
    var p, longer := Place(chain, x), Integrate(chain, x);
    hide Place;
    forall j | 0 <= j < |longer| && longer[j].left.Some?
      ensures exists i :: 0 <= i < j && Covers(longer[i], longer[j].left.value)
    {
      if j == p {
        assert Covers(longer[IndexOf(chain, x.left.value)], x.left.value);
      } else {
        var k := if j < p then j else j - 1;
        assert longer[j] == chain[k];
        var i :| 0 <= i < k && Covers(chain[i], chain[k].left.value);
        assert longer[if i < p then i else i + 1] == chain[i];
      }
    }
  }

  ghost predicate AllRightOfOrigins(s: DocState) {
    forall k :: k in s.chains ==> RightOfOrigins(s.chains[k])
  }

  /** Intention, second half: over every causal delivery each item is linked, and stays, to the right of its origin. */
  lemma {:induction false} DeliverKeepsOrigins(s: DocState, items: seq<Cell>)
    requires Inv(s) && AllRightOfOrigins(s) && Flows(s, items)
    ensures AllRightOfOrigins(Deliver(s, items))
    decreases |items|
  {
    hide Inv, Enabled, Receive, AllRightOfOrigins;
    if items != [] {
      OneMore(s, items[0]);
      DeliverKeepsOrigins(Receive(s, items[0]), items[1..]);
    }
  }

  lemma OneMore(s: DocState, x: Cell)
    requires Inv(s) && AllRightOfOrigins(s) && Enabled(s, x)
    ensures Inv(Receive(s, x)) && AllRightOfOrigins(Receive(s, x))
  {
    hide RightOfOrigins, Integrate, Find;
    var c := Resolved(s, x);
    ReceiveKeepsInv(s, x);
    EnabledLeftFound(s, x);
    assert RightOfOrigins([]) by { NoOrigins(); }
    IntegrateKeepsOrigins(ChainOf(s.chains, KeyOf(c)), c);
  }

  lemma NoOrigins()
    ensures RightOfOrigins([])
  {
  }

  // Maps.

  /** Entries without origins, the greatest ID first. */
  predicate Descending(chain: seq<Cell>) {
    && (forall i :: 0 <= i < |chain| ==> chain[i].left.None?)
    && (forall i, j :: 0 <= i < j < |chain| ==> CompareIds(chain[i].id, chain[j].id) > 0)
  }

  lemma IntegrateKeepsDescending(chain: seq<Cell>, x: Cell)
    requires Descending(chain) && x.left.None? && x.right.None? && forall c :: c in chain ==> c.id != x.id
    ensures Descending(Integrate(chain, x))
  {
    var p := Place(chain, x);
    assert forall j :: 0 <= j < p ==> !Stops(x, chain[j]);
    assert forall j :: 0 <= j < p ==> CompareIds(chain[j].id, x.id) > 0;
    assert forall j :: p <= j < |chain| ==> CompareIds(x.id, chain[j].id) > 0;
    DescendingInsert(chain, p, x);
  }

  lemma DescendingInsert(chain: seq<Cell>, p: nat, x: Cell)
    requires Descending(chain) && x.left.None? && p <= |chain|
    requires forall j :: 0 <= j < p ==> CompareIds(chain[j].id, x.id) > 0
    requires forall j :: p <= j < |chain| ==> CompareIds(x.id, chain[j].id) > 0
    ensures Descending(InsertAt(chain, p, x))
  {
    hide CompareIds;
    var longer := InsertAt(chain, p, x);
    assert forall i :: 0 <= i < |longer| ==> longer[i] == if i < p then chain[i] else if i == p then x else chain[i - 1];
  }

  ghost predicate EntriesDescend(s: DocState) {
    forall k :: k in s.chains && k.sub.Some? ==> Descending(s.chains[k])
  }

  lemma ReceiveKeepsDescending(s: DocState, x: Cell)
    requires Inv(s) && EntriesDescend(s) && Enabled(s, x)
    ensures EntriesDescend(Receive(s, x))
  {
    hide Integrate, Find;
    var c := Resolved(s, x);
    var k := KeyOf(c);
    if k.sub.Some? {
      assert c.left.None?;
      var chain := ChainOf(s.chains, k);
      assert ChainOk(s.store, chain, k);
      AppendKeepsStore(s.store, c);
      assert Descending(chain);
      IntegrateKeepsDescending(chain, c);
    }
  }

  lemma {:induction false} DeliverKeepsDescending(s: DocState, items: seq<Cell>)
    requires Inv(s) && EntriesDescend(s) && Flows(s, items)
    ensures EntriesDescend(Deliver(s, items))
    decreases |items|
  {
    hide Inv, EntriesDescend, Receive, Enabled;
    if items != [] {
      ReceiveKeepsDescending(s, items[0]);
      EnabledInv(s, items[0]);
      DeliverKeepsDescending(Receive(s, items[0]), items[1..]);
    }
  }

  lemma EnabledInv(s: DocState, x: Cell)
    requires Inv(s) && Enabled(s, x)
    ensures Inv(Receive(s, x))
  {
    ReceiveKeepsInv(s, x);
  }

  /** An entry of this map key, as it is sent. */
  predicate EntryFor(x: Cell, k: Key) {
    IsEntry(x) && x.left.None? && x.home.Some? && KeyOf(x) == k
  }

  /** What is stored came with a delivery. */
  ghost predicate CameWith(items: seq<Cell>, c: Cell) {
    exists x :: x in items && c == x.(home := c.home)
  }

  lemma {:induction false} StoredCame(s: DocState, items: seq<Cell>, c: Cell)
    requires InStore(Deliver(s, items).store, c)
    ensures InStore(s.store, c) || CameWith(items, c)
    decreases |items|
  {
    hide Find, Link, BornDead;
    if items != [] {
      StoredCame(Receive(s, items[0]), items[1..], c);
      if InStore(Receive(s, items[0]).store, c) && !InStore(s.store, c) {
        assert items[0] in items && c == items[0].(home := c.home);
      } else if CameWith(items[1..], c) {
        var x :| x in items[1..] && c == x.(home := c.home);
        assert x in items;
      }
    }
  }

  /** As long as no deletion was applied, an item is deleted exactly if it arrived so. */
  ghost predicate DeadAsBorn(s: DocState) {
    forall c :: InStore(s.store, c) ==> (c.id in s.dead <==> BornDead(s.ds, c))
  }

  lemma ReceiveKeepsBorn(s: DocState, x: Cell)
    requires Inv(s) && DeadAsBorn(s) && Enabled(s, x)
    ensures DeadAsBorn(Receive(s, x))
  {
    hide Find, Link, BornDead;
    var c := Resolved(s, x);
    var t := Receive(s, x);
    AppendKeepsStore(s.store, c);
    assert c.id !in s.dead;
    forall d | InStore(t.store, d) ensures d.id in t.dead <==> BornDead(t.ds, d) {
      assert d == c || InStore(s.store, d);
    }
  }

  lemma {:induction false} DeliverKeepsBorn(s: DocState, items: seq<Cell>)
    requires Inv(s) && DeadAsBorn(s) && Flows(s, items)
    ensures DeadAsBorn(Deliver(s, items)) && Deliver(s, items).ds == s.ds
    decreases |items|
  {
    hide Inv, DeadAsBorn, Enabled;
    if items != [] {
      ReceiveKeepsBorn(s, items[0]);
      EnabledInv(s, items[0]);
      DeliverKeepsBorn(Receive(s, items[0]), items[1..]);
    }
  }

  /**
   * Map winner: on every replica, in whatever causal order the items arrive, the list of a map key
   * descends by client, and for one client by clock. Its head is a received entry of that key, no other
   * received entry of the key has a greater client, or the same client and a greater clock, and `Get`
   * returns its value unless it is known to be deleted.
   */
  lemma MapWinner(ds: DeleteSet, items: seq<Cell>, name: Name, key: Name, x: Cell)
    requires Causal(items) && x in items && EntryFor(x, EntryKey(name, key))
    ensures var s := Deliver(Blank(ds), items);
            var chain := ChainOf(s.chains, EntryKey(name, key));
            && (forall i, j :: 0 <= i < j < |chain| ==>
                  chain[i].id.client > chain[j].id.client
                  || (chain[i].id.client == chain[j].id.client && chain[i].id.clock > chain[j].id.clock))
            && exists y :: y in items && EntryFor(y, EntryKey(name, key))
                 && (y.id.client > x.id.client || (y.id.client == x.id.client && y.id.clock >= x.id.clock))
                 && chain != [] && chain[0] == y
                 && Get(s, name, key) == (if InDeleteSet(ds, y.id) then None else Some(y.content))
  {
    hide Inv, Flows, Causal, Deliver, Find, Descending, DeadAsBorn;
    var k := EntryKey(name, key);
    var s := Deliver(Blank(ds), items);
    CausalFlows(ds, items);
    BlankOk(ds);
    DeliverKeepsDescending(Blank(ds), items);
    DeliverKeepsBorn(Blank(ds), items);
    var chain := ChainOf(s.chains, k);
    assert Delivered(s, x);
    var i :| 0 <= i < |chain| && chain[i].id == x.id;
    assert Descending(chain);
    DescendsByClient(chain);
    HeadCame(ds, items, s, k);
    var y :| y in items && EntryFor(y, k) && chain[0] == y;
    HeadDead(s, k);
  }

  lemma DescendsByClient(chain: seq<Cell>)
    requires Descending(chain)
    ensures forall i, j :: 0 <= i < j < |chain| ==>
              chain[i].id.client > chain[j].id.client
              || (chain[i].id.client == chain[j].id.client && chain[i].id.clock > chain[j].id.clock)
  {
    forall i, j | 0 <= i < j < |chain|
      ensures chain[i].id.client > chain[j].id.client || (chain[i].id.client == chain[j].id.client && chain[i].id.clock > chain[j].id.clock)
    {
      assert CompareIds(chain[i].id, chain[j].id) > 0;
    }
  }

  lemma HeadDead(s: DocState, k: Key)
    requires Inv(s) && DeadAsBorn(s) && ChainOf(s.chains, k) != []
    ensures var c := ChainOf(s.chains, k)[0]; c.id in s.dead <==> BornDead(s.ds, c)
  {
    var chain := ChainOf(s.chains, k);
    assert ChainOk(s.store, chain, k) && chain[0] in chain;
  }

  lemma HeadCame(ds: DeleteSet, items: seq<Cell>, s: DocState, k: Key)
    requires Causal(items) && s == Deliver(Blank(ds), items) && Inv(s) && k.sub.Some?
    requires ChainOf(s.chains, k) != [] && Descending(ChainOf(s.chains, k))
    ensures exists y :: y in items && EntryFor(y, k) && ChainOf(s.chains, k)[0] == y
  {
    hide Deliver;
    var chain := ChainOf(s.chains, k);
    assert ChainOk(s.store, chain, k) && chain[0] in chain;
    StoredCame(Blank(ds), items, chain[0]);
    var y :| y in items && chain[0] == y.(home := chain[0].home);
    assert Produced(y);
    CausalFlows(ds, items);
    assert Delivered(s, y);
    FindIsUnique(ItemsOf(s.store, y.id.client), y.id.client, y.id, chain[0]);
    assert EntryFor(y, k);
  }

  lemma BlankOk(ds: DeleteSet)
    ensures Inv(Blank(ds)) && EntriesDescend(Blank(ds)) && DeadAsBorn(Blank(ds))
  {
  }
}

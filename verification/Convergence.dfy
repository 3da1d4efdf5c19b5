/**
 * Convergence of integrateItem: replicas that receive the same items, in any orders that
 * respect causality, end in the same state.
 */
module Convergence {
  import opened Cells
  import opened Integration

  predicate LeftFound(chain: seq<Cell>, x: Cell) {
    x.left.Some? ==> IndexOf(chain, x.left.value) < |chain|
  }

  predicate Independent(x: Cell, y: Cell) {
    && x.id != y.id
    && (x.left.Some? ==> !Covers(y, x.left.value))
    && (y.left.Some? ==> !Covers(x, y.left.value))
  }

  /** An item keeps its place when a later one is inserted at or after it. */
  lemma PlaceKept(chain: seq<Cell>, x: Cell, q: nat, y: Cell)
    requires x.right.None? && LeftFound(chain, x) && (x.left.Some? ==> !Covers(y, x.left.value))
    requires Place(chain, x) <= q <= |chain| && (Place(chain, x) == q ==> Before(x, y))
    ensures Place(InsertAt(chain, q, y), x) == Place(chain, x)
  {
    var p, longer := Place(chain, x), InsertAt(chain, q, y);
    hide IndexOf, Scan;
    if x.left.Some? { IndexAfterInsert(chain, q, y, x.left.value); }
    assert forall j :: 0 <= j < q ==> longer[j] == chain[j];
    assert longer[q] == y;
    PlaceAt(longer, x, p);
  }

  /** An item's place moves by one when an item it is not before is inserted at or before it. */
  lemma PlaceShifted(chain: seq<Cell>, y: Cell, p: nat, x: Cell)
    requires y.right.None? && LeftFound(chain, y) && (y.left.Some? ==> !Covers(x, y.left.value))
    requires p <= Place(chain, y) && (Start(chain, y.left) <= p ==> !Before(y, x))
    ensures Place(InsertAt(chain, p, x), y) == Place(chain, y) + 1
  {
    var q, longer := Place(chain, y), InsertAt(chain, p, x);
    hide IndexOf, Scan;
    if y.left.Some? { IndexAfterInsert(chain, p, x, y.left.value); }
    forall j | Start(longer, y.left) <= j < q + 1 ensures !Stops(y, longer[j]) {
      assert longer[j] == if j < p then chain[j] else if j == p then x else chain[j - 1];
    }
    PlaceAt(longer, y, q + 1);
  }

  lemma InsertTwice<T>(s: seq<T>, p: nat, q: nat, x: T, y: T)
    requires p <= q <= |s|
    ensures InsertAt(InsertAt(s, p, x), q + 1, y) == InsertAt(InsertAt(s, q, y), p, x)
  {
    assert InsertAt(InsertAt(s, p, x), q + 1, y) == s[..p] + [x] + s[p..q] + [y] + s[q..];
    assert InsertAt(InsertAt(s, q, y), p, x) == s[..p] + [x] + s[p..q] + [y] + s[q..];
  }

  /** If x belongs before y, then each finds its own place whether or not the other is there. */
  lemma DiamondOrdered(chain: seq<Cell>, x: Cell, y: Cell)
    requires x.right.None? && y.right.None? && Independent(x, y)
    requires LeftFound(chain, x) && LeftFound(chain, y)
    requires var p, q := Place(chain, x), Place(chain, y); p < q || (p == q && Before(x, y))
    ensures Integrate(Integrate(chain, x), y) == Integrate(Integrate(chain, y), x)
  {
    hide IndexOf, Scan;
    var p, q := Place(chain, x), Place(chain, y);
    BeforeIsStrictTotalOrder(x, y, x);
    if p < q && Start(chain, y.left) <= p {
      BeforeIsStrictTotalOrder(y, x, chain[p]);
    }
    PlaceShifted(chain, y, p, x);
    PlaceKept(chain, x, q, y);
    InsertTwice(chain, p, q, x, y);
  }

  /** The diamond: two items, neither the origin of the other, integrate to the same list in either order. */
  lemma Diamond(chain: seq<Cell>, x: Cell, y: Cell)
    requires x.right.None? && y.right.None? && Independent(x, y)
    requires LeftFound(chain, x) && LeftFound(chain, y)
    ensures Integrate(Integrate(chain, x), y) == Integrate(Integrate(chain, y), x)
  {
    BeforeIsStrictTotalOrder(x, y, x);
    var p, q := Place(chain, x), Place(chain, y);
    if p < q || (p == q && Before(x, y)) {
      DiamondOrdered(chain, x, y);
    } else {
      DiamondOrdered(chain, y, x);
    }
  }

  /** An item that integrateItem will link: its origin, if it has one, is stored and linked. */
  predicate Enabled(s: DocState, x: Cell) {
    && Fits(s, x) && Lookup(s.store, x.id).None? && x.right.None?
    && (x.left.None? ==> x.home.Some?)
    && (x.left.Some? ==>
          var o := Lookup(s.store, x.left.value);
          o.Some? && o.value.home.Some? && o.value in ChainOf(s.chains, KeyOf(o.value)))
  }

  /** The cell that an enabled item becomes, and the list it goes to. */
  function Resolved(s: DocState, x: Cell): (c: Cell)
    requires Enabled(s, x)
    ensures c.home.Some? && c.id == x.id
  {
    x.(home := Resolve(s.store, x))
  }

  lemma EnabledLeftFound(s: DocState, x: Cell)
    requires Enabled(s, x)
    ensures var c := Resolved(s, x); LeftFound(ChainOf(s.chains, KeyOf(c)), c)
  {
    if x.left.Some? {
      var o := Lookup(s.store, x.left.value).value;
      assert KeyOf(Resolved(s, x)) == KeyOf(o);
    }
  }

  /** Receiving an item of one client does not change what an item of another client becomes. */
  lemma ResolvedAfter(s: DocState, x: Cell, y: Cell)
    requires Inv(s) && Enabled(s, x) && Enabled(s, y) && x.id.client != y.id.client
    ensures var t := Receive(s, y);
            Lookup(t.store, x.id).None? && t.store == Append(s.store, Resolved(s, y)) && Resolve(t.store, x) == Resolve(s.store, x)
    ensures x.left.Some? ==> !Covers(y, x.left.value)
  {
    LookupAfterAppend(s.store, Resolved(s, y), x.id);
    if x.left.Some? {
      LookupAfterAppend(s.store, Resolved(s, y), x.left.value);
      AppendKeepsStore(s.store, Resolved(s, y));
      var o := Lookup(s.store, x.left.value).value;
      SortedBelow(ItemsOf(s.store, y.id.client), y.id.client, y.id.clock);
    }
  }

  lemma StaysEnabled(s: DocState, x: Cell, y: Cell)
    requires Inv(s) && Enabled(s, x) && Enabled(s, y) && x.id.client != y.id.client
    ensures Enabled(Receive(s, y), x)
  {
    var c := Resolved(s, y);
    ResolvedAfter(s, x, y);
    StateAfterAppend(s.store, c, x.id.client);
    if x.left.Some? {
      LookupAfterAppend(s.store, c, x.left.value);
      var chain := ChainOf(s.chains, KeyOf(c));
      InsertAtElements(chain, Place(chain, c), c);
    }
  }

  lemma ChainsCommute(chains: Chains, x: Cell, y: Cell)
    requires x.home.Some? && y.home.Some? && x.right.None? && y.right.None? && Independent(x, y)
    requires LeftFound(ChainOf(chains, KeyOf(x)), x) && LeftFound(ChainOf(chains, KeyOf(y)), y)
    ensures Link(Link(chains, x), y) == Link(Link(chains, y), x)
  {
    hide Integrate;
    if KeyOf(x) == KeyOf(y) {
      Diamond(ChainOf(chains, KeyOf(x)), x, y);
    }
  }

  lemma AppendCommutes(store: Store, x: Cell, y: Cell)
    requires x.id.client != y.id.client
    ensures Append(Append(store, x), y) == Append(Append(store, y), x)
  {
  }

  lemma AdmitCommutes(s: DocState, x: Cell, y: Cell)
    requires x.id.client != y.id.client && x.home.Some? && y.home.Some?
    requires Link(Link(s.chains, x), y) == Link(Link(s.chains, y), x)
    ensures Admit(Admit(s, x), y) == Admit(Admit(s, y), x)
  {
    AppendCommutes(s.store, x, y);
  }

  /** Two enabled items of different clients may be received in either order. */
  lemma ReceiveCommutes(s: DocState, x: Cell, y: Cell)
    requires Inv(s) && Enabled(s, x) && Enabled(s, y) && x.id.client != y.id.client
    ensures Receive(Receive(s, x), y) == Receive(Receive(s, y), x)
  {
    ResolvedAfter(s, x, y);
    ResolvedAfter(s, y, x);
    EnabledLeftFound(s, x);
    EnabledLeftFound(s, y);
    var cx, cy := Resolved(s, x), Resolved(s, y);
    assert cx.right.None? && cy.right.None? && Independent(cx, cy);
    ChainsCommute(s.chains, cx, cy);
    AdmitCommutes(s, cx, cy);
    assert Receive(Receive(s, x), y) == Receive(Admit(s, cx), y) == Admit(Admit(s, cx), cy);
    assert Receive(Receive(s, y), x) == Receive(Admit(s, cy), x) == Admit(Admit(s, cy), cx);
  }

  /** A causal delivery: every item is enabled when its turn comes. */
  predicate Flows(s: DocState, items: seq<Cell>)
    decreases |items|
  {
    items == [] || (Enabled(s, items[0]) && Flows(Receive(s, items[0]), items[1..]))
  }

  lemma StateAfterReceive(s: DocState, x: Cell, client: nat)
    requires Inv(s) && Enabled(s, x)
    ensures x.len >= 1 && StateOf(s.store, x.id.client) <= x.id.clock && Inv(Receive(s, x))
    ensures StateOf(Receive(s, x).store, client) == if client == x.id.client then End(x) else StateOf(s.store, client)
  {
    ReceiveKeepsInv(s, x);
    StateAfterAppend(s.store, Resolved(s, x), client);
  }

  /** Items of the same client that flow are in clock order, above what is stored. */
  lemma {:induction false} FlowsInOrder(s: DocState, items: seq<Cell>)
    requires Inv(s) && Flows(s, items)
    decreases |items|
    ensures forall i :: 0 <= i < |items| ==> items[i].len >= 1 && StateOf(s.store, items[i].id.client) <= items[i].id.clock
    ensures forall i, j :: 0 <= i < j < |items| && items[i].id.client == items[j].id.client ==>
              End(items[i]) <= items[j].id.clock
  {
    hide Receive, Enabled, Inv, StateOf;
    if items != [] {
      var x, rest := items[0], items[1..];
      StateAfterReceive(s, x, x.id.client);
      FlowsInOrder(Receive(s, x), rest);
      forall i | 1 <= i < |items|
        ensures items[i].len >= 1 && StateOf(s.store, items[i].id.client) <= items[i].id.clock
        ensures x.id.client == items[i].id.client ==> End(x) <= items[i].id.clock
      {
        assert items[i] == rest[i - 1];
        StateAfterReceive(s, x, items[i].id.client);
      }
      forall i, j | 0 <= i < j < |items| && items[i].id.client == items[j].id.client
        ensures End(items[i]) <= items[j].id.clock
      {
        if i > 0 { assert items[i] == rest[i - 1] && items[j] == rest[j - 1]; }
      }
    }
  }

  function Without<T>(d: seq<T>, k: nat): seq<T>
    requires k < |d|
  {
    d[..k] + d[k + 1..]
  }

  lemma Swap(s: DocState, x: Cell, y: Cell)
    requires Inv(s) && Enabled(s, x) && Enabled(s, y) && x.id.client != y.id.client
    ensures Inv(Receive(s, y)) && Enabled(Receive(s, y), x) && Enabled(Receive(s, x), y)
    ensures Receive(Receive(s, x), y) == Receive(Receive(s, y), x)
  {
    ReceiveKeepsInv(s, y);
    StaysEnabled(s, x, y);
    StaysEnabled(s, y, x);
    ReceiveCommutes(s, x, y);
  }

  /** An item that is enabled now may as well be received now as after items of other clients. */
  lemma {:induction false} MoveToFront(s: DocState, d: seq<Cell>, k: nat)
    requires Inv(s) && Flows(s, d) && k < |d| && Enabled(s, d[k])
    requires forall i :: 0 <= i < k ==> d[i].id.client != d[k].id.client
    ensures Flows(Receive(s, d[k]), Without(d, k))
    ensures Deliver(s, d) == Deliver(Receive(s, d[k]), Without(d, k))
    decreases k
  {
    hide Receive, Enabled, Inv;
    if k == 0 {
      assert Without(d, 0) == d[1..];
    } else {
      var x, y, rest := d[k], d[0], d[1..];
      Swap(s, x, y);
      MoveToFront(Receive(s, y), rest, k - 1);
      assert Without(d, k)[0] == y && Without(d, k)[1..] == Without(rest, k - 1);
    }
  }

  /** What one causal order has first is preceded, in another one, only by items of other clients. */
  lemma FirstIsForemost(s: DocState, d1: seq<Cell>, d2: seq<Cell>, k: nat)
    requires Inv(s) && Flows(s, d1) && Flows(s, d2) && multiset(d1) == multiset(d2)
    requires d1 != [] && k < |d2| && d2[k] == d1[0]
    ensures forall i :: 0 <= i < k ==> d2[i].id.client != d1[0].id.client
  {
    FlowsInOrder(s, d1);
    FlowsInOrder(s, d2);
    forall i | 0 <= i < k ensures d2[i].id.client != d1[0].id.client {
      assert d2[i] in multiset(d1);
      var j :| 0 <= j < |d1| && d1[j] == d2[i];
    }
  }

  lemma RemoveSame<T>(a: seq<T>, b: seq<T>, k: nat)
    requires a != [] && k < |b| && a[0] == b[k] && multiset(a) == multiset(b)
    ensures multiset(a[1..]) == multiset(Without(b, k))
  {
    assert a == [a[0]] + a[1..];
    assert b == b[..k] + [b[k]] + b[k + 1..];
    assert multiset(a[1..]) == multiset(a) - multiset{a[0]};
    assert multiset(Without(b, k)) == multiset(b) - multiset{b[k]};
  }

  /**
   * Convergence: from any replica, two causal deliveries of the same items, in whatever
   * orders, end in the same state: the same store, lists and deleted flags.
   */
  lemma {:induction false} Converges(s: DocState, d1: seq<Cell>, d2: seq<Cell>)
    requires Inv(s) && Flows(s, d1) && Flows(s, d2) && multiset(d1) == multiset(d2)
    ensures Deliver(s, d1) == Deliver(s, d2)
    decreases |d1|
  {
    if d1 == [] {
      assert |multiset(d2)| == 0;
    } else {
      var x := d1[0];
      assert x in multiset(d2);
      var k :| 0 <= k < |d2| && d2[k] == x;
      FirstIsForemost(s, d1, d2, k);
      MoveToFront(s, d2, k);
      ReceiveKeepsInv(s, x);
      RemoveSame(d1, d2, k);
      Converges(Receive(s, x), d1[1..], Without(d2, k));
    }
  }

  /** A replica that has received nothing yet but knows a delete set. */
  function Blank(ds: DeleteSet): DocState {
    EMPTY.(ds := ds)
  }

  /** What the library produces: no right origin, and a parent name or a left origin. */
  predicate Produced(x: Cell) {
    Shaped(x) && x.right.None? && (x.left.None? ==> x.home.Some?)
  }

  /** Some earlier item of the sequence, no map entry, covers the left origin of x. */
  predicate OriginIn(d: seq<Cell>, x: Cell) {
    x.left.Some? ==> IndexOf(d, x.left.value) < |d| && !IsEntry(d[IndexOf(d, x.left.value)])
  }

  /** Causality read off the items alone: clients in clock order, origins before dependents. */
  ghost predicate Causal(d: seq<Cell>) {
    && (forall j :: 0 <= j < |d| ==> Produced(d[j]) && OriginIn(d[..j], d[j]))
    && (forall i, j :: 0 <= i < j < |d| && d[i].id.client == d[j].id.client ==> End(d[i]) <= d[j].id.clock)
  }

  function LastEnd(d: seq<Cell>, client: nat): nat {
    if d == [] then 0
    else if d[|d| - 1].id.client == client then End(d[|d| - 1])
    else LastEnd(d[..|d| - 1], client)
  }

  lemma {:induction false} LastEndBelow(d: seq<Cell>, client: nat, clock: nat)
    requires forall i :: 0 <= i < |d| && d[i].id.client == client ==> End(d[i]) <= clock
    ensures LastEnd(d, client) <= clock
  {
    if d != [] { LastEndBelow(d[..|d| - 1], client, clock); }
  }

  /** The stored form of a delivered item, which is in its list. */
  predicate Delivered(s: DocState, x: Cell) {
    var o := Lookup(s.store, x.id);
    && o.Some? && o.value.home.Some? && o.value == x.(home := o.value.home) && (x.home.Some? ==> o.value.home == x.home)
    && o.value in ChainOf(s.chains, KeyOf(o.value))
  }

  lemma CausalNext(s: DocState, d: seq<Cell>, x: Cell)
    requires Inv(s) && StateOf(s.store, x.id.client) <= x.id.clock
    requires Produced(x) && OriginIn(d, x) && forall y :: y in d ==> Delivered(s, y)
    ensures Enabled(s, x)
  {
    SortedBelow(ItemsOf(s.store, x.id.client), x.id.client, x.id.clock);
    if x.left.Some? {
      var y := d[IndexOf(d, x.left.value)];
      assert Delivered(s, y);
      FindIsUnique(ItemsOf(s.store, y.id.client), y.id.client, x.left.value, Lookup(s.store, y.id).value);
    }
  }

  /** A linked item stays where getItem and its list find it. */
  lemma StaysDelivered(s: DocState, c: Cell, y: Cell)
    requires c.home.Some? && Delivered(s, y)
    ensures Delivered(Admit(s, c), y)
  {
    LookupAfterAppend(s.store, c, y.id);
    var chain := ChainOf(s.chains, KeyOf(c));
    InsertAtElements(chain, Place(chain, c), c);
  }

  lemma BecomesDelivered(s: DocState, x: Cell)
    requires Inv(s) && Enabled(s, x)
    ensures Delivered(Receive(s, x), x)
  {
    var c := Resolved(s, x);
    LookupAfterAppend(s.store, c, x.id);
    var chain := ChainOf(s.chains, KeyOf(c));
    InsertAtElements(chain, Place(chain, c), c);
  }

  /** The state after d was delivered, as far as later items depend on it. */
  ghost predicate Reached(s: DocState, d: seq<Cell>) {
    && Inv(s)
    && (forall c :: StateOf(s.store, c) == LastEnd(d, c))
    && (forall x :: x in d ==> Delivered(s, x))
  }

  lemma ReachedNext(s: DocState, d: seq<Cell>, x: Cell)
    requires Reached(s, d) && Enabled(s, x)
    ensures Reached(Receive(s, x), d + [x])
  {
    var c, e := Resolved(s, x), d + [x];
    var t := Receive(s, x);
    ReceiveKeepsInv(s, x);
    forall k ensures StateOf(t.store, k) == LastEnd(e, k) {
      assert e[..|e| - 1] == d;
      StateAfterAppend(s.store, c, k);
    }
    forall y | y in e ensures Delivered(t, y) {
      if y in d { StaysDelivered(s, c, y); } else { BecomesDelivered(s, x); }
    }
  }

  lemma {:induction false} CausalFlowsOn(s: DocState, d: seq<Cell>, n: nat)
    requires Causal(d) && n <= |d| && Reached(s, d[..n])
    ensures Flows(s, d[n..]) && Reached(Deliver(s, d[n..]), d)
    decreases |d| - n
  {
    hide Receive, Enabled, Inv, Delivered;
    if n == |d| {
      assert d[..n] == d;
    } else {
      var x := d[n];
      LastEndBelow(d[..n], x.id.client, x.id.clock);
      CausalNext(s, d[..n], x);
      ReachedNext(s, d[..n], x);
      assert d[..n + 1] == d[..n] + [x];
      CausalFlowsOn(Receive(s, x), d, n + 1);
      assert d[n..][0] == x && d[n..][1..] == d[n + 1..];
    }
  }

  /** Delivered to a blank replica in causal order, every item is enabled in turn and ends up linked. */
  lemma CausalFlows(ds: DeleteSet, d: seq<Cell>)
    requires Causal(d)
    ensures Flows(Blank(ds), d)
    ensures var s := Deliver(Blank(ds), d); Inv(s) && forall x :: x in d ==> Delivered(s, x)
  {
    assert d[0..] == d;
    CausalFlowsOn(Blank(ds), d, 0);
  }

  /**
   * Convergence in terms of the items alone: delivered to blank replicas in any two causal orders,
   * the same items end in the same state, whatever was known to be deleted before.
   */
  lemma CausalConverges(ds: DeleteSet, d1: seq<Cell>, d2: seq<Cell>)
    requires Causal(d1) && Causal(d2) && multiset(d1) == multiset(d2)
    ensures Deliver(Blank(ds), d1) == Deliver(Blank(ds), d2)
  {
    hide Causal, Flows, Deliver;
    CausalFlows(ds, d1);
    CausalFlows(ds, d2);
    Converges(Blank(ds), d1, d2);
  }
}
